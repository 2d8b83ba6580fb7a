# Collaborax: the client-side store, the state cache and the page rules

Collaborax is a browser-only team workspace: users sign up, create teams,
invite members by email, and share meetings, documents, files and chat
messages. Everything lives in an in-browser SQLite database (SQL.js) that
is written to durable browser storage as base64 text after every change.

This project models, in Dafny:

- **the store** (`services/db.ts`, module `Store`): seven tables held as
  sequences of rows in insertion order (`Tables`), their three key
  constraints (`KeysHold`), the getters as functions over the tables, and
  the `DB` class whose methods insert, delete and update rows and then save.
  The save/init path is modelled as a round trip: the database image goes
  through `uint8ArrayToBase64`/`btoa` into storage, and back through
  `atob`/`base64ToUint8Array` (module `Base64`: RFC 4648 section 4 encoding,
  and the forgiving decoding of the WHATWG HTML standard that `atob` uses).
  `parseResults` is modelled on a result-set value (`ParseResults`).
- **the provider** (`App.tsx`, module `App`): the `AppProvider` class with
  the session (`currentUser`, also written to durable storage), the six
  cached arrays that `reloadData` replaces, the mutation wrappers, the
  pure accessors (`getTeam`, `getTeamMeetings`, …) and the sidebar's
  team list.
- **the team page** (`components/Team.tsx`, module `TeamPage`): file-type
  classification, the member-management permissions, the document reveal
  rule, the chat's `trim` guard, and each tab's submit handler as a small
  class over its form state.
- **the dashboard** (`components/Dashboard.tsx`, module `Dashboard`): the
  user's teams, the first three upcoming meetings and documents, and the
  three counters.

`types.ts` becomes the datatypes of module `Types`.

Ids that the source builds from the clock are parameters of the model,
with a `requires` that they are fresh. The one exception is signup: there
an id clash is caught and turned into `false`, so it is modelled as a
rejected signup. Date strings are integer instants, and the current time
is a parameter.

## Model

| member | source | states |
|---|---|---|
| Store.ParseResults | services/db.ts:6-16 | no result set gives no rows; otherwise one object per row of the first result set, whose keys are exactly its column names, each holding that row's cell (or undefined past the row's end), a repeated column name holding its last cell |
| Store.ParseRow | services/db.ts:9-14 | one row as an object: keys are the column names, each mapped to the cell at the column's last position |
| Store.LastIndexOf | services/db.ts:11-13 | the index whose assignment survives is the last one carrying that name |
| Store.DB.constructor | services/db.ts:19-23 | a fresh store is not initialised, holds the given engine and whatever text durable storage holds |
| Store.DB.Init | services/db.ts:25-40 | once initialised, init returns at once and changes nothing; with no stored text it creates the empty schema and saves it; with stored text it opens the decoded image, and a text that does not decode or load leaves the store unopened |
| Store.Reopen | services/db.ts:25-45 | a store saved after any sequence of operations and opened again by a new store object holds exactly the same tables |
| Store.SaveThenRestore | services/db.ts:42-45 | the text save writes is never empty, and decoding and loading it gives back the tables that were saved |
| Store.DB.Save | services/db.ts:42-45 | afterwards the stored text is the base64 encoding of the current tables' image |
| Store.DB.Uint8ArrayToBase64 | services/db.ts:47-54 | the loop builds the binary string of the bytes, and the result is the RFC 4648 encoding of the array's contents |
| Store.DB.Base64ToUint8Array | services/db.ts:56-64 | fails exactly when the text is not valid base64; otherwise the new array holds the decoded bytes |
| Store.DB.CharCodes | services/db.ts:58-63 | a new array whose bytes are the code units of the binary string, position by position |
| Base64.DecodeEncode | services/db.ts:47-64 | decoding the encoding of any byte sequence gives it back |
| Base64.UnpaddedRoundTrip | services/db.ts:47-64 | the alphabet part of the encoding decodes to the original bytes, group by group |
| Base64.GroupRoundTrip | services/db.ts:53 | each three-byte group encodes to four alphabet characters that decode back to it |
| Base64.Encode | services/db.ts:53 | the output's length is a multiple of four, and it is empty only for no bytes |
| Base64.EncodeUnpadded | services/db.ts:53 | all characters are in the alphabet, and the length modulo four is fixed by the input length modulo three |
| Base64.Btoa | services/db.ts:53 | btoa succeeds exactly on binary strings, those whose characters are all below 256 |
| Base64.Atob | services/db.ts:57 | a successful atob yields a binary string |
| Base64.AtobBtoa | services/db.ts:53-57 | atob inverts btoa on every binary string |
| Base64.AtobCodeUnits | services/db.ts:57-61 | atob fails exactly when the text does not decode, and otherwise its code units are the decoded bytes |
| Base64.CodeUnitsBinaryOf | services/db.ts:50-52 | the code units of the binary string built from bytes are those bytes |
| Base64.BinaryOf | services/db.ts:50-52 | the string built with fromCharCode has one character per byte, each with that byte's value |
| Base64.CodeUnits | services/db.ts:61 | charCodeAt reads back each character's value, one byte per character |
| Base64.StripWhitespace | services/db.ts:57 | atob's input with no ASCII white space left |
| Base64.StripWhitespaceAppend | services/db.ts:57 | white-space removal distributes over concatenation, so the kept characters stay in their order |
| Base64.StripWhitespaceCounts | services/db.ts:57 | every white-space character is dropped and every other character kept as often as it occurs |
| Base64.EncodeHasNoWhitespace | services/db.ts:53-57 | removing white space leaves an encoding unchanged |
| Base64.StripPaddingOfEncode | services/db.ts:53-57 | removing the padding from an encoding leaves its alphabet part |
| Store.DB.CreateTables | services/db.ts:66-120 | the schema starts with all seven tables empty and is saved |
| Store.DB.Signup | services/db.ts:123-132 | succeeds exactly when neither the id nor the email is already used; success appends exactly one row with the given name, email and password and saves; failure changes nothing |
| Store.WithUser | services/db.ts:125 | the insert appends the row, keeps every key constraint, and leaves the other tables unchanged |
| Store.Login | services/db.ts:134-137 | returns a user exactly when some row has that email and that password, and the user is the full row (password included) of such a row |
| Store.LoginAfterSignup | services/db.ts:123-137 | logging in with the credentials just accepted by signup returns that user's full row |
| Store.GetUserByEmail | services/db.ts:139-142 | returns a user exactly when some row has that email, and the user is such a row's id, name and email, with no password |
| Store.GetUsers | services/db.ts:145-147 | one user per row, in table order, with id, name and email and never a password |
| Store.GetTeams | services/db.ts:149-156 | one team per team row, in table order, whose members are exactly the membership rows under its id |
| Store.MembersOf | services/db.ts:154 | a team's members are the membership rows with its id, without that id; no rows for the id gives no members |
| Store.MembersOfAppend | services/db.ts:154 | a membership row appended later appears last in its team's member list |
| Store.GetDocuments | services/db.ts:162-168 | one document per row, in order, protected exactly when the stored flag is 1 |
| Store.AsDocumentRow | services/db.ts:228 | the stored flag is always 0 or 1 |
| Store.DocumentFlagRoundTrip | services/db.ts:162-168 | reading back the row addDocument writes gives the same document, flag included |
| Store.AddDocumentThenGet | services/db.ts:162-168 | after addDocument, getDocuments lists the old documents followed by the new one |
| Store.WithTeam | services/db.ts:179-184 | createTeam appends exactly one team row and one owner membership row, keeps the keys, and changes no other table |
| Store.DB.CreateTeam | services/db.ts:179-184 | the tables become WithTeam of the old tables, saved |
| Store.CreateTeamListsTeam | services/db.ts:149-184 | after createTeam, getTeams lists the old teams followed by the new team, with the owner as its only member |
| Store.AddMemberOutcome | services/db.ts:186-205 | the answer is "added" exactly when it succeeds; "user not found" exactly when no user has that email; success only for a known user with no membership row for the pair |
| Store.AddMemberAddsExactlyNonMembers | services/db.ts:186-205 | whatever the team id, even one with no team row, a known user is added exactly when no membership row for the pair exists |
| Store.ListedMemberHasKey | services/db.ts:192-193 | a user the team's listing shows always has a membership row under the team id |
| Store.AddMemberToExistingTeam | services/db.ts:186-205 | for a team that exists, a known user is added exactly when not yet a member, and the only failure for a known user is "already a member" |
| Store.ListedMemberMatchesKey | services/db.ts:192-193 | for a team that exists, the listed-member check and the membership key agree |
| Store.FindMemberKey | services/db.ts:198 | the insert's key conflict happens exactly when a row with that pair exists |
| Store.DB.AddTeamMember | services/db.ts:186-205 | the answer is AddMemberOutcome of the old tables; on success exactly one `member` row is appended and saved; on failure nothing changes |
| Store.WithMember | services/db.ts:198 | the insert appends one row with role member and keeps every key |
| Store.WithoutMember | services/db.ts:207-210 | exactly the rows with that (teamId, userId) key disappear; other tables are unchanged |
| Store.RemoveAbsentMember | services/db.ts:207-210 | removing a pair that has no row changes nothing |
| Store.DB.RemoveTeamMember | services/db.ts:207-210 | the tables become WithoutMember of the old tables, saved |
| Store.SetRole | services/db.ts:243 | the row with the key gets the new role; every row keeps its key and position; the others are untouched |
| Store.WithRole | services/db.ts:242-245 | the update keeps every key constraint and changes no other table |
| Store.RoleUpdated | services/db.ts:242-245 | after the update the member holds the new role whatever the old one was, and no membership appears or disappears |
| Store.SetRoleAbsent | services/db.ts:242-245 | updating a pair that has no row changes nothing |
| Store.DB.UpdateUserRole | services/db.ts:242-245 | the tables become WithRole of the old tables, saved |
| Store.DeleteWhereFrame | services/db.ts:217 | each delete touches only the table it names |
| Store.DB.RunCascade | services/db.ts:213-218 | the loop over the two parallel lists performs the six deletes in order |
| Store.CascadeIsResult | services/db.ts:212-220 | the six deletes filter teams by id and the five other tables by teamId, and leave users alone |
| Store.CascadeComplete | services/db.ts:212-220 | afterwards no team row has the id and no membership, meeting, document, file or message row has the teamId; every other row stays, and users are unchanged |
| Store.CascadeKeepsKeys | services/db.ts:212-220 | the cascade keeps every key constraint |
| Store.DB.DeleteTeam | services/db.ts:212-220 | the tables become the cascade's result, saved |
| Store.WithMeeting | services/db.ts:222-225 | addMeeting appends one row, keeps the keys, changes no other table |
| Store.DB.AddMeeting | services/db.ts:222-225 | the tables become WithMeeting of the old tables, saved |
| Store.WithDocument | services/db.ts:227-230 | addDocument appends the flag-encoded row, keeps the keys, changes no other table |
| Store.DB.AddDocument | services/db.ts:227-230 | the tables become WithDocument of the old tables, saved |
| Store.WithFile | services/db.ts:232-235 | addFile appends one row, keeps the keys, changes no other table |
| Store.DB.AddFile | services/db.ts:232-235 | the tables become WithFile of the old tables, saved |
| Store.WithMessage | services/db.ts:237-240 | addMessage appends one row, keeps the keys, changes no other table |
| Store.DB.AddMessage | services/db.ts:237-240 | the tables become WithMessage of the old tables, saved |
| Seqs.Except | services/db.ts:208 | a delete keeps exactly the rows whose field differs from the value |
| Seqs.ExceptMultiset | services/db.ts:217 | a delete removes every copy of a matching row and keeps every copy of the others |
| Seqs.ExceptKeepsUnique | services/db.ts:207-220 | deleting rows never breaks a key constraint |
| Seqs.ExceptNothing | services/db.ts:208 | a delete that matches no row leaves the table as it was |
| Seqs.AppendKeepsUnique | services/db.ts:66-120 | appending a row whose key is new keeps the key unique |
| App.AppProvider.constructor | App.tsx:48-57 | the session is the one read from durable storage, the cache is empty, and the provider is not ready |
| App.AppProvider.Start | App.tsx:68-75 | the store is opened, the cache filled, and the provider ready exactly when opening succeeds |
| App.AppProvider.ReloadData | App.tsx:59-66 | every cached array becomes the matching getter's result on the current tables |
| App.AppProvider.Login | App.tsx:82-89 | succeeds exactly when the store's login finds a user, who becomes the session; a failed login keeps the session |
| App.AppProvider.Logout | App.tsx:91 | no one is signed in, in memory and in durable storage |
| App.AppProvider.Signup | App.tsx:93-99 | a rejected signup changes neither the store nor the session; an accepted one appends the user and signs them in |
| App.AppProvider.CreateTeam | App.tsx:101-105 | signed out, nothing changes; signed in, the team is created with the current user as owner and the cache reloaded |
| App.AppProvider.AddMeeting | App.tsx:107-110 | the store gets the meeting and the cache is reloaded |
| App.AppProvider.AddDocument | App.tsx:112-115 | the store gets the document and the cache is reloaded |
| App.AppProvider.AddFile | App.tsx:117-120 | the store gets the file and the cache is reloaded |
| App.AppProvider.AddMessage | App.tsx:122-125 | the store gets the message and the cache is reloaded |
| App.AppProvider.UpdateUserRole | App.tsx:127-130 | the store updates the role and the cache is reloaded |
| App.AppProvider.AddTeamMember | App.tsx:132-138 | the store's answer is returned; the cache is reloaded only on success, and a failure changes nothing |
| App.AppProvider.RemoveTeamMember | App.tsx:140-143 | the store removes the row and the cache is reloaded |
| App.AppProvider.DeleteTeam | App.tsx:145-148 | the store runs the cascade and the cache is reloaded |
| App.GetTeam | App.tsx:154 | some team exactly when one has the id, and then the first such team |
| App.GetUser | App.tsx:155 | some user exactly when one has the id, and then the first such user |
| Seqs.Find | App.tsx:154-155 | finds exactly when an element matches, and returns the first match |
| Seqs.FindUnique | App.tsx:154-155 | under a unique key, looking up an element's key returns that element |
| App.GetTeamMeetings | App.tsx:156 | exactly the team's meetings, each as often as cached, newest first |
| Seqs.SortBy | App.tsx:156 | the result is sorted by the key and is a permutation of the input |
| Seqs.Insert | App.tsx:156 | inserting into a sorted list keeps it sorted and adds exactly that element |
| App.GetTeamDocuments | App.tsx:157 | exactly the team's documents, each as often as cached |
| App.DocumentsAfterAdd | App.tsx:157 | the filter keeps cached order: a document added later comes last |
| App.GetTeamFiles | App.tsx:158 | exactly the team's files, each as often as cached |
| App.FilesAfterAdd | App.tsx:158 | the filter keeps cached order: a file added later comes last |
| App.GetTeamMessages | App.tsx:159 | exactly the messages of that team and channel, each as often as cached, oldest first |
| App.DirectMessageOneWay | App.tsx:159 | a direct message from A on channel B shows on channel B and not on channel A |
| App.TeamsOf | App.tsx:190 | the teams listing the user, each as often as cached, never more than there are teams |
| App.UserTeams | App.tsx:190 | signed out, no teams; signed in, exactly the teams that list the current user |
| App.CreatedTeamVisible | App.tsx:101-190 | a team just created is found by its id with the owner as sole member, and shows in its owner's sidebar |
| App.SidebarCreateTeam | App.tsx:192-197 | a cancelled or empty answer, or no session, changes nothing; otherwise the team is created under that name |
| TeamPage.GetFileType | components/Team.tsx:199-204 | image exactly when the lower-cased name ends with an image extension; pdf when it ends with `.pdf` and not an image extension; video likewise after both; never link |
| TeamPage.EndsWithAnyIsExtension | components/Team.tsx:200-202 | the case-insensitive suffix test is the same as a suffix test on the lower-cased name |
| TeamPage.ViewerRole | components/Team.tsx:337-338 | the viewer has a role exactly when a membership row has the viewer's id, and that row carries the role |
| TeamPage.CanBeRemoved | components/Team.tsx:399 | an owner row is never removable; an owner viewer may remove any non-owner; a sub-admin only members; anyone else no one |
| TeamPage.SubAdminRemovesOnlyMembers | components/Team.tsx:399 | a sub-admin is offered removal exactly for member rows |
| TeamPage.MemberActionsNeedManager | components/Team.tsx:341-435 | removal needs a managing role; the role selector is offered only where removal is; the delete control only to managers; the selector never offers owner |
| TeamPage.RevealedContent | components/Team.tsx:132-143 | content is shown only as it is stored: always when unprotected, and when protected exactly when the entered text equals the password |
| TeamPage.FormDocument | components/Team.tsx:126 | a password is stored exactly when protection is checked |
| TeamPage.ProtectedDocumentOpensWithItsPassword | components/Team.tsx:124-143 | a protected document saved through the form opens with exactly the password typed when it was saved |
| TeamPage.TrimStart | components/Team.tsx:278 | removes exactly the leading JavaScript white space |
| TeamPage.TrimEnd | components/Team.tsx:278 | removes exactly the trailing JavaScript white space |
| TeamPage.TrimEmptyIff | components/Team.tsx:278 | a message trims to nothing exactly when it is all white space |
| TeamPage.DirectMessageTargets | components/Team.tsx:290 | exactly the team's members other than the viewer, each as often as listed |
| TeamPage.MeetingsView.constructor | components/Team.tsx:63-66 | the form starts closed and empty |
| TeamPage.MeetingsView.HandleSubmit | components/Team.tsx:68-74 | with a title, a link, a date and a session the meeting is stored and the form reset; otherwise nothing changes |
| TeamPage.DocumentsView.constructor | components/Team.tsx:118-122 | the form starts closed, empty and unprotected |
| TeamPage.DocumentsView.HandleSubmit | components/Team.tsx:124-130 | with a name, content and a session the form's document is stored and the form reset; otherwise nothing changes |
| TeamPage.LockersView.constructor | components/Team.tsx:181-184 | the form starts closed, empty, in link mode |
| TeamPage.LockersView.HandleSubmit | components/Team.tsx:206-212 | with a name, a URL and a session the item is stored, typed link in link mode and by getFileType otherwise, and the form reset; otherwise nothing changes |
| TeamPage.ChatView.constructor | components/Team.tsx:268-269 | the public channel is active and the input empty |
| TeamPage.ChatView.HandleSend | components/Team.tsx:277-282 | a message that is not all white space, with a session, is stored untrimmed on the active channel and the input cleared; otherwise nothing changes |
| TeamPage.MembersView.constructor | components/Team.tsx:331-333 | the add form starts closed, empty and without error |
| TeamPage.MembersView.HandleAddMember | components/Team.tsx:343-353 | an empty email does nothing; on success the member is added and the form closed and cleared; on failure the store's message is shown and the store unchanged |
| TeamPage.MembersView.HandleRemoveMember | components/Team.tsx:355-359 | the member is removed exactly when the viewer confirms |
| TeamPage.MembersView.HandleDeleteTeam | components/Team.tsx:361-370 | the team is deleted exactly when the answer equals the name of the team the provider caches under that id (the view exists only when that team is found); a cancelled prompt and a wrong name change nothing and are told apart |
| Dashboard.UserTeamIds | components/Dashboard.tsx:9-10 | signed out, none; signed in, exactly the ids of the teams that list the user |
| Dashboard.TeamIds | components/Dashboard.tsx:10 | the ids of the teams, position by position |
| Dashboard.Upcoming | components/Dashboard.tsx:11-12 | exactly the meetings of the user's teams strictly after now |
| Dashboard.UpcomingAppend | components/Dashboard.tsx:11-12 | the filter keeps stored order: a meeting stored later comes later |
| Dashboard.UpcomingMeetings | components/Dashboard.tsx:11-13 | at most three, a prefix of the upcoming meetings in stored order, and all of them when there are fewer than three |
| Dashboard.PanelKeepsStoredOrder | components/Dashboard.tsx:11-13 | once three upcoming meetings are stored, a meeting stored later never enters the panel, however soon it is |
| Seqs.Take | components/Dashboard.tsx:13 | slice(0, n) is the prefix of length min(n, length) |
| Dashboard.TeamDocuments | components/Dashboard.tsx:14 | exactly the documents of the user's teams |
| Dashboard.TeamDocumentsAppend | components/Dashboard.tsx:14 | the filter keeps stored order |
| Dashboard.RecentDocuments | components/Dashboard.tsx:14 | at most three, a prefix of the user's documents in stored order, and all of them when there are fewer than three |
| Dashboard.DocumentCountIsPositions | components/Dashboard.tsx:45 | the document counter counts one per stored document of the user's teams |
| Dashboard.DashboardCounters | components/Dashboard.tsx:27-45 | the team counter is the number of the user's teams; the meetings counter is at most three; the document counter counts the positions of the user's documents; all zero when signed out |

## Left out

- SQL.js itself (loading from the CDN, SQL text, `exec`/`run`) is not modelled: each statement is written directly as its effect on the tables. The engine's `export` and `new Database(bytes)` are the two functions of an `Engine` value given to the store, with a stated round-trip property.
- The getters, login and getUserByEmail are modelled on the rows directly. `ParseResults` models parseResults on a result-set value, but the SQL that would produce the result sets is not modelled.
- Durable browser storage is a field of the store (`savedBlob`) and of the provider (`storedUser`). Quota errors from `setItem` are not modelled, and the session's JSON serialisation is taken to be exact.
- Ids built from `Date.now()` are parameters, with a `requires` that they are fresh in their table. A same-millisecond clash, which makes the add* methods throw, is outside the model. For signup such a clash is caught, and it is modelled as a rejected signup.
- Date strings and `new Date(...)` parsing are integer instants. The meeting form's empty date is `None`. The dashboard's current time and the chat's send time are parameters.
- `Store.DB.Init` and `App.AppProvider.Start`: the model has no asynchronous loading. The CDN fetch is taken to succeed, and a stored text that does not decode or load is a failed start; in the browser it would throw.
- The `DB` methods and provider wrappers other than init require an initialised store and a ready provider. The source calls them only once `isDbReady` holds, because nothing renders before that.
- Store.WithDocument: assumes, without settling it, that sql.js binds `undefined` (the password of an unprotected document) as NULL; if the library instead rejects that value, the insert of an unprotected document would fail, which the model does not capture.
- `FileReader` data-URL reading, React rendering, routing, `alert`, `navigate` and the auth form (components/Auth.tsx) are not part of this model. `prompt` and `confirm` answers are parameters.
- `App.GetTeamMeetings` and `App.GetTeamMessages`: the order of meetings with equal times is not stated (sort stability is not modelled); the contract gives the multiset and the order by time.
- `Dashboard.Upcoming`: states membership and stored order (through `Dashboard.UpcomingAppend`) but not how many copies of a repeated meeting it keeps.
- `Dashboard.DashboardCounters`: the upcoming-meetings counter is stated only as at most three, the length of the panel's list.
- `TeamPage.LockersView.HandleSubmit`: the item's type is stated through `LockerItemType`, which is link in link mode and `getFileType` of the name otherwise. Its properties are those of `TeamPage.GetFileType`.
- Invariants the code does not enforce are not asserted: direct-message symmetry, exactly one owner per team, a team existing for each membership row, and the atomicity of the delete loop.
