# pikmin-army room membership, modelled in Dafny

pikmin-army is a bulletin board for raid "rooms". A host publishes a room with
a fixed number of slots. Other players join it with their friend code, leave it
or are kicked by the host. The host or an administrator may delete the room.
Rooms live in one shared table, `mushroom_rooms`. Every client reads that table
again after each change.

This project models the room-membership core of that app:

- `types.dfy` (module `Types`): participants, rooms, profiles, the master
  administrator code, and the room invariant `WellFormed`. The invariant says
  the room is within capacity, friend codes are unique, and the host is not listed.
- `friendcode.dfy` (module `FriendCode`): friend-code display formatting and
  validation. The JavaScript character classes `[a-zA-Z]`, `\D` and `\s` are
  written out.
- `sharelink.dfy` (module `ShareLink`): the share-link projection of a room
  and how it is read back.
- `store.dfy` (module `Store`): the table as a class `RoomStore` over a map from
  id to row. It covers the room/row mappings, upsert, the join procedure's
  guarded append, the participant filter used by leave and kick, delete, and
  the listing query. The listing query returns active rooms from the last 24
  hours, newest first.
- `roomview.dfy` (module `RoomView`): the roles and the actions offered on a
  room's detail page.
- `myposts.dfy` (module `MyPosts`): the "hosted" and "joined" lists.
- `home.dfy` (module `Home`): the profile form as a class `ProfileForm`. It
  holds the typed code (its whitespace-free form is `CleanFriendCode`), the
  administrator toggle that only the master code keeps, and the profile saved
  on submit.
- `app.dfy` (module `App`): the coordinator as a class `Coordinator`. It holds
  the local room list, the profile and the current page, and has one handler
  per user action. Two scenario methods walk through a room of two slots: B and
  C join, D is turned away, the host kicks B, and D gets in. A third shows a
  delete through a share link.

A few behaviours of the app are worth knowing before reading the contracts:

- The administrator flag is trusted as it is stored. The delete gate reads
  `user.isAdmin` and never checks it against the master code.
  `App.ForgedFlagDeletes` states the consequence.
  `App.DeleteAuthority` and `RoomView.DeleteRightHonest` hold only for
  profiles whose flag is backed by the master code, as every profile the form
  saves is.
- The delete gate takes the host from the room in the local list, not from the
  stored row. A share link puts its own room first in that list and drops the
  listed room with the same id, and the link's author chooses both the id and
  the host's friend code. So any viewer who knows a room's id can write a link
  naming that id and their own code, open it, and delete the stored room
  without hosting it or carrying the flag. `App.LinkedHostDeletes` states this,
  and `App.LinkedDeleteScenario` walks through it. In the app this lasts only
  until the next listing replaces the local list. That listing runs on start
  and after every change notification.
- Kick has no role check of its own. Only the page offers it to the host alone.
  It is the same store operation as leave.
- Failures are not reported as distinct errors. Each store operation answers
  `false`, or the empty list. A failed listing therefore empties the local list.
- No client code outside the detail page's join button checks that a
  newcomer is not the host. The join check as modelled (a free slot and no
  listed participant with the same code) would admit the host, and
  `Store.JoinKeepsInvariants` shows that the room then breaks the rule that
  the host is not listed. The server procedure's own checks are not part of
  this model.
- The join button is shown to a visitor without a profile, but the join handler
  does nothing for them.

## Model

| member | source | states |
|---|---|---|
| FriendCode.IsAsciiLetter | pikmin-army/utils/helpers.ts:6 | the class `[a-zA-Z]` |
| FriendCode.IsDigit | pikmin-army/utils/helpers.ts:10-11 | the class `\d`, whose complement is `\D` |
| FriendCode.IsWhitespace | pikmin-army/utils/helpers.ts:19 | the class `\s`, with every character JavaScript counts as whitespace |
| FriendCode.HasLetter | pikmin-army/utils/helpers.ts:6 | the test `/[a-zA-Z]/.test(code)` |
| FriendCode.AllDigits | pikmin-army/utils/helpers.ts:21 | every character is a decimal digit, as in `/^\d{12}$/` |
| FriendCode.DigitsOf | pikmin-army/utils/helpers.ts:10 | the `\D` removal yields only digits and never lengthens the code |
| FriendCode.DigitsOfKeepsDigits | pikmin-army/utils/helpers.ts:10 | the `\D` removal keeps every digit as many times as it occurs, in order, and nothing else |
| FriendCode.StripWhitespace | pikmin-army/utils/helpers.ts:19 | the `\s` removal leaves no whitespace and never lengthens the code |
| FriendCode.StripWhitespaceKeepsOthers | pikmin-army/utils/helpers.ts:19 | the `\s` removal keeps every other character as many times as it occurs, in order |
| FriendCode.Format | pikmin-army/utils/helpers.ts:5-16 | `formatFriendCode`; its three cases are stated by `FriendCode.FormatCases` |
| FriendCode.IsValid | pikmin-army/utils/helpers.ts:18-22 | `isValidFriendCode`: the whitespace-free code is the master code or exactly twelve digits |
| FriendCode.Grouped | pikmin-army/utils/helpers.ts:11-13 | twelve digits are shown as 14 characters with spaces at positions 4 and 9; removing them gives the digits back |
| FriendCode.GroupedDigits | pikmin-army/utils/helpers.ts:11-13 | a grouped code has no letter, and both the digit filter and the whitespace strip recover the twelve digits |
| FriendCode.FormatCases | pikmin-army/utils/helpers.ts:5-16 | a code with a letter is shown unchanged; otherwise its digits are shown, grouped exactly when there are twelve |
| FriendCode.FormatIdempotent | pikmin-army/utils/helpers.ts:5-16 | formatting a formatted code changes nothing |
| FriendCode.FormattedCodeValid | pikmin-army/utils/helpers.ts:5-22 | the display of twelve digits passes validation and strips back to the same digits |
| FriendCode.StripAgreesWithDigits | pikmin-army/utils/helpers.ts:10-21 | when the whitespace-free code is all digits, the digit filter and the whitespace strip agree |
| FriendCode.ValidCodeDisplaysGrouped | pikmin-army/utils/helpers.ts:5-22 | every valid code without letters has twelve digits once stripped and is displayed grouped |
| Types.WellFormed | pikmin-army/components/RoomDetail.tsx:170 | within capacity, codes unique and the host not listed: the three room invariants the join gate at this line preserves (`RoomView.JoinGateSound`) |
| ShareLink.Encode | pikmin-army/utils/helpers.ts:29-40 | encoding a room never fails |
| ShareLink.Decode | pikmin-army/utils/helpers.ts:43-61 | a token decodes iff it is readable; the room has no participants, is active, is created now, has the remote host id, no image, no minimum strength and a non-empty id |
| ShareLink.RoundTrip | pikmin-army/utils/helpers.ts:29-61 | decode after encode keeps host nickname and code, category, attribute, slots, start time and a non-empty id |
| ShareLink.DecodeThenEncode | pikmin-army/utils/helpers.ts:29-61 | a readable token with an id encodes back to itself after decoding |
| Store.Stored | pikmin-army/services/databaseService.ts:116 | a null participant column reads as the empty list |
| Store.FromRow | pikmin-army/services/databaseService.ts:109-121 | a row reads back with its id, creation time and status, and the host id is the remote marker |
| Store.ToRow | pikmin-army/services/databaseService.ts:18-31 | storing a room and reading it back loses only the host's id |
| Store.RowRoundTrip | pikmin-army/services/databaseService.ts:109-121 | reading a row back and storing it again changes only a null participant column into the empty list |
| Store.RemoveByCode | pikmin-army/services/databaseService.ts:72 | the filter keeps exactly the participants with another code, each as many times as before, in their order |
| Store.NotListedAfterRemove | pikmin-army/services/databaseService.ts:72 | after the filter nobody has the removed code |
| Store.RemoveAbsent | pikmin-army/services/databaseService.ts:72 | filtering out a code nobody has changes nothing |
| Store.RemoveTwice | pikmin-army/services/databaseService.ts:72 | filtering the same code twice is filtering it once |
| Store.RemoveCommutes | pikmin-army/services/databaseService.ts:72 | two removals give the same list in either order |
| Store.RemoveKeepsUnique | pikmin-army/services/databaseService.ts:72 | the filter keeps friend codes unique |
| Store.RemoveKeepsWellFormed | pikmin-army/services/databaseService.ts:62-83 | leave and kick keep every room invariant |
| Store.Admits | pikmin-army/services/databaseService.ts:47-50 | the join check as modelled: a free slot and nobody listed with the newcomer's code |
| Store.Appended | pikmin-army/services/databaseService.ts:44-60 | a successful join appends the newcomer and changes nothing else in the row |
| Store.JoinKeepsInvariants | pikmin-army/services/databaseService.ts:44-60 | an admitted join stays within capacity and keeps codes unique; the room stays well formed iff the newcomer is not the host |
| Store.Upserted | pikmin-army/services/databaseService.ts:16-42 | the upsert sets the room's row under its id, leaves every other row alone and keeps rows keyed by id |
| Store.UpsertIdempotent | pikmin-army/services/databaseService.ts:33-35 | upserting the same room twice is upserting it once |
| Store.AfterJoin | pikmin-army/services/databaseService.ts:44-60 | a join appends the newcomer to an existing room that admits them, keeping every other column of that row (`Appended`), and otherwise changes nothing; other rows are untouched |
| Store.AfterLeave | pikmin-army/services/databaseService.ts:62-83 | leave filters the code out of an existing room's list, writes the list back set (a null list becomes the empty list) and keeps every other column; other rows are untouched |
| Store.LeaveAbsentCode | pikmin-army/services/databaseService.ts:62-83 | leaving a room one is not listed in changes no row whose participant list is set; a null list is stored back as empty |
| Store.Deleted | pikmin-army/services/databaseService.ts:85-95 | delete removes exactly that id and keeps the other rows |
| Store.Listed | pikmin-army/services/databaseService.ts:102-104 | the rows the listing keeps: active and created within the last day |
| Store.IsFetchResult | pikmin-army/services/databaseService.ts:99-121 | a listing: every listed row read back once, nothing else, newest first |
| Store.InsertNewestFirst | pikmin-army/services/databaseService.ts:105 | inserting a room keeps the list ordered newest first and adds exactly that room |
| Store.InsertAddsOnce | pikmin-army/services/databaseService.ts:105 | insertion adds exactly one copy of the room and keeps every other room as many times as before |
| Store.InsertKeepsDistinct | pikmin-army/services/databaseService.ts:97-125 | inserting a room with a new id keeps ids distinct |
| Store.RoomStore.constructor | pikmin-army/services/databaseService.ts:9-14 | an empty table, where the scenarios start; the real client connects to a table that already holds rows, and every method is specified over any table keyed by id |
| Store.RoomStore.Upsert | pikmin-army/services/databaseService.ts:16-42 | reports success iff reachable, and the new table is the upserted one |
| Store.RoomStore.Join | pikmin-army/services/databaseService.ts:44-60 | reports success iff reachable, the room exists, it has a free slot and nobody in it has the code; the new table is `AfterJoin` |
| Store.RoomStore.Leave | pikmin-army/services/databaseService.ts:62-83 | reports success iff reachable and the room exists; the new table is `AfterLeave` |
| Store.RoomStore.Delete | pikmin-army/services/databaseService.ts:85-95 | reports success iff reachable; the new table is `Deleted` |
| Store.RoomStore.Fetch | pikmin-army/services/databaseService.ts:97-125 | unreachable gives the empty list; otherwise every active row from the last day read back once, nothing else, newest first |
| Store.StrictOrderDetermined | pikmin-army/services/databaseService.ts:105 | two strictly newest-first lists of the same rooms are equal |
| Store.FetchResultsAgree | pikmin-army/services/databaseService.ts:97-125 | any two listings of one table hold the same rooms, and are equal when no two rows share a creation time |
| Store.SyncedRoomIsFetched | pikmin-army/services/databaseService.ts:97-125 | a room just synced, active and younger than a day, is in the next listing |
| Store.FetchHidesExpired | pikmin-army/services/databaseService.ts:102-104 | a listing holds only active rooms created within the last day |
| RoomView.IsHost | pikmin-army/components/RoomDetail.tsx:23 | the viewer's code is the host's code; never without a profile |
| RoomView.IsAdmin | pikmin-army/components/RoomDetail.tsx:24 | the stored flag is on |
| RoomView.CanDelete | pikmin-army/components/RoomDetail.tsx:25 | host or flag |
| RoomView.IsJoined | pikmin-army/components/RoomDetail.tsx:27 | some participant has the viewer's code; never without a profile |
| RoomView.IsFull | pikmin-army/components/RoomDetail.tsx:28 | at least as many participants as slots |
| RoomView.JoinOffered | pikmin-army/components/RoomDetail.tsx:170 | not host, not joined and not full |
| RoomView.LeaveOffered | pikmin-army/components/RoomDetail.tsx:179 | joined and not host |
| RoomView.FullBannerShown | pikmin-army/components/RoomDetail.tsx:188 | full, not joined and not host |
| RoomView.KickOffered | pikmin-army/components/RoomDetail.tsx:139 | the viewer is the host |
| RoomView.AdminDeleteLabel | pikmin-army/components/RoomDetail.tsx:197-200 | flag on and not host |
| RoomView.EmptySlots | pikmin-army/components/RoomDetail.tsx:158 | the placeholders fill the room to its capacity, and there are none once it is full |
| RoomView.NoProfileNoRole | pikmin-army/components/RoomDetail.tsx:23-27 | without a profile the viewer is neither host, administrator nor participant, and may not delete or kick |
| RoomView.DeleteRightHonest | pikmin-army/components/RoomDetail.tsx:23-25 | for a profile whose flag is backed by the master code, the delete right belongs only to the host's code or the master code; the host always has it |
| RoomView.OfferedActionsExclusive | pikmin-army/components/RoomDetail.tsx:170-192 | at most one of join, leave and the full banner is shown, and none to the host |
| RoomView.JoinOfferedWithoutProfile | pikmin-army/components/RoomDetail.tsx:170-177 | a visitor without a profile is offered join in a room with space, and nothing that needs a role |
| RoomView.JoinGateSound | pikmin-army/components/RoomDetail.tsx:170-177 | when join is offered on a well-formed room, the store admits the viewer and the room stays well formed |
| MyPosts.HostedBy | pikmin-army/components/MyPosts.tsx:15 | the room's host has the user's code |
| MyPosts.JoinedBy | pikmin-army/components/MyPosts.tsx:16-19 | the user does not host the room and some participant has the user's code |
| MyPosts.Hosted | pikmin-army/components/MyPosts.tsx:15 | exactly the rooms the user hosts, in order |
| MyPosts.Joined | pikmin-army/components/MyPosts.tsx:16-19 | exactly the rooms listing the user that the user does not host, in order |
| MyPosts.HostedJoinedDisjoint | pikmin-army/components/MyPosts.tsx:15-19 | no room is in both lists; a hosted room is only in the hosted list |
| MyPosts.HostedConcat | pikmin-army/components/MyPosts.tsx:15 | the hosted filter distributes over concatenation |
| MyPosts.JoinedConcat | pikmin-army/components/MyPosts.tsx:16-19 | the joined filter distributes over concatenation |
| MyPosts.LeftBy | pikmin-army/services/databaseService.ts:72 | after the user leaves a room its list is exactly the old list with their code filtered out, so it is not joined by them, and every other field is kept |
| MyPosts.LeavingDropsFromJoined | pikmin-army/components/MyPosts.tsx:16-19 | leaving a room drops it from the joined list and keeps the others in place |
| MyPosts.LeavingKeepsHosted | pikmin-army/components/MyPosts.tsx:15 | leaving a room leaves the hosted list naming the same rooms |
| Home.CleanFriendCode | pikmin-army/components/Home.tsx:20 | the typed code without whitespace |
| Home.IsMasterCode | pikmin-army/components/Home.tsx:21 | the cleaned code is the master code |
| Home.AdminHonest | pikmin-army/components/Home.tsx:35 | the flag is on only with the master code, as every saved profile has it |
| Home.SubmittedProfile | pikmin-army/components/Home.tsx:29-39 | the saved profile has the cleaned code, no whitespace, and the flag only for the master code with the toggle on |
| Home.SubmittedCodeAccepted | pikmin-army/components/Home.tsx:29-39 | a saved code is the master code or twelve digits |
| Home.ProfileForm.constructor | pikmin-army/components/Home.tsx:15-27 | the form opens on the saved profile; after the first effect run the toggle is on only if the profile claims it and has the master code |
| Home.ProfileForm.EditNickname | pikmin-army/components/Home.tsx:97 | only the nickname changes |
| Home.ProfileForm.EditFriendCode | pikmin-army/components/Home.tsx:20-27 | the code changes, and the toggle stays on only if it was on and the new code is the master code |
| Home.ProfileForm.ToggleAdmin | pikmin-army/components/Home.tsx:117-125 | the toggle flips only for the master code |
| Home.ProfileForm.Submit | pikmin-army/components/Home.tsx:29-39 | a profile is saved iff the nickname is set and the code is valid; editing then ends |
| App.NewRoom | pikmin-army/App.tsx:93-100 | the new room keeps the form's fields, is empty, active and created now, and is well formed iff its slots are not negative |
| App.WithoutId | pikmin-army/App.tsx:81 | exactly the rooms with another id, each as many times as before, in order |
| App.MergeShared | pikmin-army/App.tsx:81 | the shared room comes first and once, is the only room with its id, and every room with another id is kept as many times as before, in order |
| App.MergeKeepsIdsDistinct | pikmin-army/App.tsx:81 | the merge keeps room ids distinct |
| App.FindRoom | pikmin-army/App.tsx:140 | finds a room iff one has the id, and then it is the first with that id |
| App.DeleteAllowed | pikmin-army/App.tsx:140-145 | the room is in the local list and the viewer hosts it or carries the flag |
| App.DeleteAuthority | pikmin-army/App.tsx:139-145 | with a flag backed by the master code, only the host of the room in the local list (which a share link can supply) or the master code passes the delete gate |
| App.LinkedHostDeletes | pikmin-army/App.tsx:81-147 | after opening a link that names any id and the viewer's own code, the delete gate passes for that id |
| App.ForgedFlagDeletes | pikmin-army/App.tsx:143-145 | a profile with the flag on and another code still passes the delete gate |
| App.Coordinator.constructor | pikmin-army/App.tsx:26-30 | the app starts on the home page with no profile, no rooms and no current room |
| App.Coordinator.LoadProfile | pikmin-army/App.tsx:71-72 | a saved profile is taken as stored |
| App.Coordinator.SaveUser | pikmin-army/App.tsx:88-91 | the profile becomes the current one and nothing else changes |
| App.Coordinator.OpenSharedLink | pikmin-army/App.tsx:74-85 | a decodable link merges its room into the list and shows it; anything else changes nothing |
| App.Coordinator.Refresh | pikmin-army/App.tsx:41-46 | the local list becomes a listing of the table, or empty when unreachable |
| App.Coordinator.CreateRoom | pikmin-army/App.tsx:93-110 | the new room is upserted iff reachable, and then it is shown |
| App.Coordinator.Join | pikmin-army/App.tsx:112-122 | nothing happens without a profile; otherwise the profile is offered to the store's join check |
| App.Coordinator.Leave | pikmin-army/App.tsx:124-130 | nothing happens without a profile; otherwise the profile's own code is filtered out of the room |
| App.Coordinator.Kick | pikmin-army/App.tsx:132-137 | the target's code is filtered out of the room, with no role check |
| App.Coordinator.Delete | pikmin-army/App.tsx:139-152 | the store deletes the room iff reachable and the delete gate passes; the board is then shown |

## Left out

- Network, the Supabase client and the realtime change feed: each operation has a `reachable` flag, and a refresh stands for the effect of a change notification.
- Concurrency between clients: operations run one at a time. The join procedure's atomicity and the read-then-write race in leave are not modelled.
- The join procedure runs on the server as a stored procedure whose text is not available. It is modelled as a guarded append: a free slot and no listed participant with the same code. It does not update the status column, and a missing room gives `false`.
- Store.RoomStore.Fetch: rows created at the same instant may come back in any order, so two listings are proved equal only when creation times are distinct. Otherwise they are proved to hold the same rooms.
- JSON, URI escaping and base64 in share links are an opaque bijection. Hand-made tokens with missing or mistyped fields are not modelled.
- `Date`, ISO strings and time zones are integer milliseconds. Random ids are parameters.
- Slots are integers. Fractional slots, and the form's `min`/`max` hints, are not modelled.
- Friend-code input length limits (`maxLength`) are HTML hints and are not modelled.
- The battle-tip service, the clipboard, image upload, local storage, URL and history handling, notifications, the syncing flag, and rendering are not modelled. The bulletin board's `isMyRoom` repeats the host test modelled in `RoomView.IsHost`.
- FriendCode.DigitsOf: its own contract states only that the result is digits and no longer than the code. That every digit is kept, in order, is stated by `FriendCode.DigitsOfKeepsDigits`. It is kept out of the function's contract because every proof that uses the function would pay for it.
- FriendCode.StripWhitespace: its own contract states only that no whitespace is left and the result is no longer. That every other character is kept, in order, is stated by `FriendCode.StripWhitespaceKeepsOthers`, for the same reason.
- Store.InsertNewestFirst: its own contract states the length, the members and the order. That it adds exactly one copy of the room is stated by `Store.InsertAddsOnce`, for the same reason.
- Home.ProfileForm.ToggleAdmin: the switch is drawn only for the master code. The method states what a click would do for any code.
