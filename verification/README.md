# officexr presence and office API, modelled in Dafny

officexr is a browser-based 3D virtual office. Each signed-in user (or guest)
walks around as an avatar. A small WebSocket relay in `server.js` keeps one
map of who is present, where they stand and what they look like. It tells
every other browser when someone joins, moves, changes their look or leaves.
The browser (`components/OfficeScene.tsx`) mirrors that map. It also runs
the chat box's Enter/Escape keys and ignores keyboard navigation while the
chat is open. The on-screen arrow buttons stay live even then. It throttles
its own position reports to one per 60 ms. Next.js routes
create offices, invite people by email, let them redeem the invitation token,
and store each user's avatar settings.

This project models that logic as pure Dafny functions over immutable data
and proves what the code promises about it:

- `wrappers.dfy`: `Option`.
- `js.dfy`: the JavaScript built-ins the code relies on. These are
  truthiness, `trim` and the `\s` class, `toLowerCase` on key names, UTF-16
  code units, and `ToInt32` (section 7.1.6 of ECMA-262) for `<<`.
- `avatar_types.dfy`: the customization record, its styles, accessories and
  colour presets.
- `avatar.dfy`: the id hash and colour, defaults, body proportions,
  accessory parts and the name tag.
- `settings_panel.dfy`: the panel's edits and its save flow.
- `wire.dfy`: the socket frames as datatypes.
- `presence_server.dfy`: the relay as a step function
  `(State, Event) -> (State, seq<(ConnId, ServerMsg)>)`. The JavaScript
  `Map` is an insertion-ordered list of entries with distinct keys.
- `office_scene.dfy`: the client's message reducer, the chat key machine,
  nav-key gating, the position throttle and the settings save handler.
- `store.dfy`: database rows, the ORM's filter/sort/findOne, reply statuses,
  and `Consistent`. `Consistent` is the set of constraints the schema and the
  routes keep together:
  - offices exist for memberships and invitations;
  - a user is in an office at most once;
  - one pending invitation per address and office;
  - tokens are unique;
  - user emails are unique.
- `hex.dfy`: the hex encoding of the 32 random token bytes and its inverse.
- `email.dfy`: the email pattern, and a plain description of it proved
  equivalent.
- `invitations_api.dfy`, `invitation_accept_api.dfy`, `offices_api.dfy` and
  `avatar_api.dfy`: the route handlers. Each is a function from a database,
  a session and a request body to a new database and a reply.

The client expects more of the relay than `server.js` does:
- it handles `chat-history` and `chat` messages
  (components/OfficeScene.tsx:793-801), but the relay never sends either
  (server.js:40-115);
- it sends its office id with `join` (components/OfficeScene.tsx:709-711),
  but the relay keeps one global map with no per-office rooms and never
  reads that field.

The model follows `server.js`. A `chat` frame falls through the `switch`
and changes nothing.

The relay stores a `position` frame's pose as given (server.js:87-88), even
when it is missing. `createAvatar` throws on a record without a pose
(components/Avatar.tsx:158-167). The model keeps both behaviours. A client
that receives such a record in `users` stops its `forEach` there and never
updates its count. One that receives it in `user-joined` adds nothing.

Values the code takes from outside are parameters:
- the clock;
- the database-generated row ids;
- the 32 random token bytes;
- the expiry time one calendar week ahead;
- whether a socket is open.

A save that would break a primary key or the unique token column gives the
route's 500 reply.

## Model

| member | source | states |
|---|---|---|
| Js.Trim | app/api/offices/route.ts:17-22 | `trim` returns a slice of its input that neither starts nor ends with whitespace, and everything cut off on either side is whitespace |
| Js.TrimEmptyIffAllWhitespace | app/api/offices/route.ts:17 | `s.trim() === ''` holds exactly when every character of `s` is whitespace |
| Js.TrimIdempotent | components/OfficeScene.tsx:111-120 | trimming an already trimmed string changes nothing |
| Js.TrimStart | app/api/offices/route.ts:17 | removing leading whitespace keeps a suffix of the input that starts with a non-whitespace character, and only whitespace is removed |
| Js.TrimEnd | app/api/offices/route.ts:17 | removing trailing whitespace keeps a prefix of the input that ends with a non-whitespace character, and only whitespace is removed |
| Js.ToLowerCase | components/OfficeScene.tsx:590 | lower-casing keeps the length and maps each character on its own, moving only A-Z |
| Js.CodeUnitsOf | components/Avatar.tsx:190-191 | a character below 0x10000 is one code unit equal to itself; any other is a surrogate pair |
| Js.ToInt32 | components/Avatar.tsx:191 | the conversion `<<` applies to its left operand lies in the signed 32-bit range and is congruent to `x` modulo 2^32 |
| Js.CodeUnits | components/Avatar.tsx:190-191 | an id of n characters has between n and 2n UTF-16 code units, each below 0x10000 |
| Js.ToInt32Unique | components/Avatar.tsx:191 | `ToInt32(x)` is the one value in the signed 32-bit range congruent to `x` modulo 2^32 |
| Js.ShiftLeft5 | components/Avatar.tsx:191 | `h << 5` lies in the signed 32-bit range and is congruent to 32·h modulo 2^32 |
| AvatarTypes.ParseStyleName | types/avatar.ts:4 | reading back a style's name gives that style |
| AvatarTypes.ParseStyle | types/avatar.ts:4 | a string is read as a style only when it is that style's name |
| AvatarTypes.StylesMatchType | types/avatar.ts:4-8 | `AVATAR_STYLES` lists the four values the `style` type admits, each once, and nothing else |
| AvatarTypes.AccessoriesDistinct | types/avatar.ts:10-17 | `AVATAR_ACCESSORIES` holds six distinct names |
| AvatarTypes.BodyPresetsDistinct | types/avatar.ts:19-30 | the ten body colour presets have pairwise different values |
| AvatarTypes.SkinPresetsDistinct | types/avatar.ts:32-39 | the six skin presets have pairwise different values, the first being the default skin colour |
| Avatar.ColorFromId | components/Avatar.tsx:194-205 | the colour derived from an id is always one of the eight palette entries |
| Avatar.GetColorHexFromId | components/Avatar.tsx:188-206 | the hash loop over the id's code units yields the same colour as the fold `ColorFromId` |
| Avatar.HashBound | components/Avatar.tsx:189-192 | each code unit moves the hash by at most 2^31 + 0xFFFF |
| Avatar.HashExactAsDouble | components/Avatar.tsx:189-192 | for ids up to 2^21 code units the hash stays below 2^53, so the double arithmetic is exact |
| Avatar.EmptyIdColor | components/Avatar.tsx:189-205 | the empty id maps to `#3498db` |
| Avatar.PaletteIsBodyPresetPrefix | components/Avatar.tsx:194-203 | the eight palette colours are the first eight body colour presets, in order |
| Avatar.DefaultCustomization | components/Avatar.tsx:18-23 | with no customization the avatar uses the id's colour, skin `#ffdbac`, style `default` and no accessories |
| Avatar.EffectiveCustomization | components/Avatar.tsx:18-23 | a given customization is used as is, and a missing one is replaced by the default |
| Avatar.BodyScaleFor | components/Avatar.tsx:26-28 | athletic gives (0.22, 0.9), formal (0.18, 0.85), and every other string, casual included, (0.2, 0.8) |
| Avatar.PartsExactlyForListedAccessories | components/Avatar.tsx:61-135 | the accessory `switch` draws parts for exactly the six names of `AVATAR_ACCESSORIES` |
| Avatar.UnknownAccessoriesAddNothing | components/Avatar.tsx:61-135 | names outside the six add no parts: the avatar is built as if only the known names were listed |
| Avatar.NameTagLabel | components/Avatar.tsx:148 | the label is the name when the name is present and non-empty, and `User` otherwise |
| Avatar.CreateAvatar | components/Avatar.tsx:13-175 | an avatar is built exactly when the record has a position and a rotation, since reading a missing one throws; the built avatar keeps its data and takes colours, proportions and accessory parts from the effective customization |
| SettingsPanel.ToggleRemovesEveryOccurrence | components/SettingsPanel.tsx:46-47 | toggling a selected name removes all its occurrences and keeps every other name, with its count, in order |
| SettingsPanel.WithoutKeepsOthersInOrder | components/SettingsPanel.tsx:47 | the filter keeps a subsequence with every other name's multiplicity |
| SettingsPanel.Without | components/SettingsPanel.tsx:47 | the filter drops the name entirely and keeps every other name that was selected |
| SettingsPanel.ToggleAppendsAbsent | components/SettingsPanel.tsx:48 | toggling an unselected name appends it at the end |
| SettingsPanel.ToggleFlipsMembership | components/SettingsPanel.tsx:43-50 | after a toggle the name is present exactly when it was absent; other names keep their membership |
| SettingsPanel.ToggleTwiceRestores | components/SettingsPanel.tsx:46-48 | toggling an unselected name twice gives back the original list |
| SettingsPanel.ChooseBodyColor | components/SettingsPanel.tsx:94 | a body colour preset replaces only the body colour |
| SettingsPanel.ChooseSkinColor | components/SettingsPanel.tsx:121 | a skin preset replaces only the skin colour |
| SettingsPanel.ChooseStyle | components/SettingsPanel.tsx:148 | a style button stores that style's name, which reads back as the style, and nothing else changes |
| SettingsPanel.ToggleAccessory | components/SettingsPanel.tsx:189 | an accessory button toggles the list and leaves the other fields alone |
| SettingsPanel.HandleSave | components/SettingsPanel.tsx:30-41 | the panel closes exactly when `onSave` completes, alerts otherwise, and is never left saving |
| PresenceServer.Get | server.js:85-86 | a lookup finds an entry exactly when some entry has that key |
| PresenceServer.Put | server.js:43-51 | `set` makes the key map to the new entry and leaves every other key's entry as it was |
| PresenceServer.PutKeepsOrder | server.js:43 | `set` keeps the keys' order; a new key goes last |
| PresenceServer.PutKeepsDistinct | server.js:43-51 | `set` never creates a second entry for a key |
| PresenceServer.Remove | server.js:123 | `delete` removes the key and leaves every other key's entry as it was |
| PresenceServer.OthersThan | server.js:54-66 | the `users` reply lists every entry's record except the one under the given id |
| PresenceServer.Broadcast | server.js:140-147 | a broadcast sends one copy per reached entry, in map order: a socket gets the message once for each entry on it that is not under the excluded id, provided it is open, and no other socket gets it |
| PresenceServer.Reached | server.js:141-143 | the reached entries are the map's entries not under the excluded id whose socket is open, each as often as stored, in map order |
| PresenceServer.SendsTo | server.js:144 | one send of the message to each entry's socket, in order |
| PresenceServer.BroadcastInOrder | server.js:140-147 | the `forEach` sends, entry by entry, exactly one copy to each reached entry |
| PresenceServer.SharedSocketGetsOneCopyPerEntry | server.js:140-147 | an open socket that two non-excluded entries point to gets the message twice |
| PresenceServer.JoinRecord | server.js:43-51 | the stored record has the frame's fields, with position (0, 1.6, 5) and rotation (0, 0, 0) when missing |
| PresenceServer.OnJoin | server.js:41-82 | `join` binds the connection and stores the record under its id, overwriting any entry; the joiner alone gets the others' records; everyone else gets `user-joined` with the same defaults |
| PresenceServer.Sender | server.js:85 | a frame has a sender exactly when the connection's id is truthy and still a key of the map |
| PresenceServer.OnPosition | server.js:84-98 | `position` from a non-sender changes nothing and sends nothing; otherwise only the sender's position and rotation change and the others are told |
| PresenceServer.OnAvatarUpdate | server.js:100-114 | `avatar-update` from a non-sender changes nothing; otherwise only the sender's customization changes and the others are told |
| PresenceServer.OnClose | server.js:121-133 | closing a never-joined connection leaves the map alone; otherwise the bound id's entry is deleted and one `user-left` goes to everyone else |
| PresenceServer.InitialInv | server.js:14 | the empty map satisfies the relay invariant |
| PresenceServer.StepPreservesInv | server.js:36-133 | every event keeps keys distinct and every entry's socket a known connection |
| PresenceServer.JoinLeavesOneEntry | server.js:42-51 | after `join` the map holds exactly one entry for the id: this connection's, with the frame's fields |
| PresenceServer.UnhandledFramesAreIgnored | server.js:37-40 | `chat`, other unknown and unparseable frames change nothing and send nothing |
| PresenceServer.NoChatIsEverSent | server.js:40-115 | the relay never sends chat or chat history |
| PresenceServer.BroadcastSkipsOriginator | server.js:140-147 | no broadcast reaches a socket whose entries are all under the excluded id |
| PresenceServer.RejoinKeepsOldEntry | server.js:42-51 | a second `join` under another id leaves the first id's entry in the map |
| PresenceServer.SharedIdFirstCloseDeletes | server.js:121-123 | when two connections joined under one id, the first to close deletes the entry the other now owns |
| PresenceServer.EmptyIdEntryOutlivesClose | server.js:122 | an entry joined under the empty id survives its connection's close, and nothing is announced |
| OfficeScene.AddMissing | components/OfficeScene.tsx:735-740 | the `forEach` keeps shown avatars as they were and adds only listed records that have a pose; when it stops, the index it stops at is inside the list |
| OfficeScene.AddMissingShows | components/OfficeScene.tsx:735-740 | when the `forEach` runs through, every listed id is shown; when `createAvatar` throws, exactly the ids listed before that record are added, and the record itself, which has no pose, is not shown |
| OfficeScene.AddMissingStopsAtUnrenderable | components/OfficeScene.tsx:735-740 | the `forEach` throws no later than the first listing of an unshown id whose pose is missing |
| OfficeScene.AddMissingCreatesOnePerNewId | components/OfficeScene.tsx:735-740 | exactly one avatar is created per newly shown id |
| OfficeScene.UsersAddsOnlyNew | components/OfficeScene.tsx:733-742 | `users` keeps shown avatars and creates one avatar per newly shown id. Either every listed id ends up shown and the count is the list length plus one, or the handler stopped at a listing without a pose, showing only the ids before it and leaving the count alone |
| OfficeScene.UsersCountedUnlessAPoseIsMissing | components/OfficeScene.tsx:733-742 | when every unshown listed record has a pose, all listed ids are shown and the count is the list length plus one; an unshown id first listed without a pose leaves the count alone |
| OfficeScene.UserJoinedAddsOnce | components/OfficeScene.tsx:744-751 | `user-joined` adds and counts an absent id whose record has a pose. A repeat is a no-op, and so is a record without a pose, on which `createAvatar` throws before the set and the count |
| OfficeScene.UserLeftRemovesOnce | components/OfficeScene.tsx:753-761 | `user-left` removes and uncounts a shown id, never below zero; an unknown id is a no-op |
| OfficeScene.UpdatesForUnknownIdsIgnored | components/OfficeScene.tsx:763-791 | `position` and `avatar-update` for ids not shown do nothing |
| OfficeScene.PositionLeavesUserData | components/OfficeScene.tsx:763-769 | `position` only moves the mesh: the stored data keeps its join-time pose |
| OfficeScene.AvatarUpdateReplacesOnlyCustomization | components/OfficeScene.tsx:771-791 | `avatar-update` rebuilds the avatar with the stored id, name, image, position and rotation and the new customization. Were the stored pose missing, the old mesh would be removed and the stored record kept |
| OfficeScene.OnMessageKeepsKeyedById | components/OfficeScene.tsx:729-801 | every shown avatar stays stored under its own id |
| OfficeScene.OnMessageKeepsAvatarsRenderable | components/OfficeScene.tsx:729-801 | every stored record has a pose, because only records `createAvatar` accepted are stored; so `avatar-update` never reaches its throwing path |
| OfficeScene.Displayed | components/OfficeScene.tsx:1173 | the chat shows the last ten messages, or all of them when there are fewer |
| OfficeScene.ChatListUpdates | components/OfficeScene.tsx:793-801 | `chat-history` replaces the list; `chat` appends one message, which is then shown last |
| OfficeScene.HandleChatKey | components/OfficeScene.tsx:99-132 | text is sent exactly when settings are closed, Enter is pressed on a visible chat with non-blank input and the socket is open; the trimmed text is sent and the input cleared |
| OfficeScene.ChatKeyTransitions | components/OfficeScene.tsx:99-131 | Enter shows a hidden chat and hides a blank one, does nothing while the socket is closed, and Escape hides and clears a visible chat |
| OfficeScene.SentTextIsTrimmedAndNonBlank | components/OfficeScene.tsx:111-124 | a sent message is never empty and neither starts nor ends with whitespace |
| OfficeScene.HandleInputKey | components/OfficeScene.tsx:1205-1230 | the input's own handler sends exactly on Enter with non-blank input and an open socket |
| OfficeScene.InputKeyAgreesWithWindowKey | components/OfficeScene.tsx:1205-1230 | with settings closed the input's handler and the window's agree; with settings open only the input's still acts |
| OfficeScene.OnKey | components/OfficeScene.tsx:589-615 | while the chat is open the eight navigation keys are not recorded; any other key is recorded lower-cased |
| OfficeScene.SyncChatVisible | components/OfficeScene.tsx:146-161 | opening the chat releases all eight navigation keys and keeps every other key |
| OfficeScene.NavKeysStayReleased | components/OfficeScene.tsx:589-615 | while the chat is open, no keyboard key sequence presses a navigation key |
| OfficeScene.ChatOpenFreezesMovement | components/OfficeScene.tsx:146-161 | once the chat opens, no keyboard key sequence makes the avatar move, so keyboard input alone sends no position frame |
| OfficeScene.OnButton | components/OfficeScene.tsx:1283-1378 | an on-screen arrow button holds down or releases its navigation key, whether or not the chat is open |
| OfficeScene.ButtonMovesWhileChatOpen | components/OfficeScene.tsx:1283-1378 | pressing an arrow button while the chat is open makes the avatar move, and a frame past the throttle on an open socket sends its position |
| OfficeScene.OnlyButtonsMoveWhileChatOpen | components/OfficeScene.tsx:589-615 | with the chat open, the avatar is moving only if some arrow button was pressed: keyboard input never holds a navigation key down |
| OfficeScene.PositionTick | components/OfficeScene.tsx:859-882 | a frame goes out exactly when moved, the socket is open and more than 60 ms have passed; the timestamp advances only then |
| OfficeScene.ThrottleSpacing | components/OfficeScene.tsx:859-882 | two consecutive sends are more than 60 ms apart |
| OfficeScene.HandleSaveSettings | components/OfficeScene.tsx:969-998 | after a successful PUT the customization is replaced and an `avatar-update` goes out if the socket is open; a failed PUT changes nothing |
| OfficeScene.SaveFromPanel | components/OfficeScene.tsx:1140 | a guest's panel never closes or sends; a signed-in user's panel closes exactly when the PUT succeeds |
| Hex.Decode | app/api/invitations/route.ts:102 | a string decodes exactly when it has even length and only lower-case hex digits |
| Hex.Encode | app/api/invitations/route.ts:102 | `toString('hex')` gives two lower-case hex digits per byte |
| Hex.DecodeEncode | app/api/invitations/route.ts:102 | decoding the hex encoding of bytes gives the bytes back |
| Hex.EncodeDecode | app/api/invitations/route.ts:102 | encoding the decoded bytes of a hex string gives the string back |
| Hex.Token | app/api/invitations/route.ts:102 | the token of 32 random bytes has 64 hex characters and decodes to those bytes |
| Email.PatternIffWellFormed | app/api/invitations/route.ts:26-27 | the pattern accepts exactly the strings with no whitespace, one `@` with something before it, and a `.` that is neither the first nor the last character after the `@` |
| Email.MatchImpliesWellFormed | app/api/invitations/route.ts:26-27 | a match of the pattern is well formed |
| Email.WellFormedHasMatch | app/api/invitations/route.ts:26-27 | a well-formed address has a match |
| Store.ParseRole | lib/entities/OfficeUser.ts:13-17 | a role name reads back as its role, and any other string reads as none |
| Store.RoleNamesDistinct | lib/entities/OfficeUser.ts:13-17 | the three role names are distinct |
| Store.StatusNamesDistinct | lib/entities/Invitation.ts:14-19 | the four status names are distinct |
| Store.Filter | app/api/offices/route.ts:83-84 | a `where` query returns exactly the rows satisfying it |
| Store.FilterMultiset | app/api/offices/route.ts:83-84 | a `where` query keeps each matching row as often as it is stored and drops every other row |
| Store.SortDesc | app/api/offices/route.ts:86 | `order: createdAt DESC` returns a permutation of its rows, newest first |
| Store.InsertDesc | app/api/offices/route.ts:86 | one insertion step of the ordering adds exactly the new row to the list |
| Store.InsertDescSorted | app/api/offices/route.ts:86 | inserting into a newest-first list keeps it newest first |
| Store.FilterSorted | app/api/invitations/route.ts:177-178 | filtering a newest-first list keeps it newest first |
| Store.QueryRowsAreTheSelection | app/api/offices/route.ts:83-87 | a filtered, ordered query returns every matching row, each as often as it is stored, newest first |
| Store.FindFirst | app/api/invitations/accept/route.ts:33-36 | `findOne` gives the first matching row, and none exactly when no row matches |
| Store.FindMembership | app/api/invitations/route.ts:45-47 | the membership lookup finds a row exactly when the user belongs to the office |
| Store.FindOffice | app/api/invitations/accept/route.ts:35 | the office relation is found exactly when an office has that id |
| Store.EmptyDbConsistent | lib/entities/Invitation.ts:42-43 | an empty database satisfies every constraint |
| InvitationsApi.Post | app/api/invitations/route.ts:5-140 | a failure stores nothing; success stores one pending row from the session user, with the requested address, office and role, never owner, and a 64-character token that decodes to the random bytes |
| InvitationsApi.FirstMembershipIsTheMembership | app/api/invitations/route.ts:45-47 | with memberships unique, the first matching membership is the membership |
| InvitationsApi.FirstUserIsTheUser | app/api/invitations/route.ts:72-83 | with emails unique, the invitee check holds exactly when some user with that address belongs to the office |
| InvitationsApi.PostPastTheFieldCheck | app/api/invitations/route.ts:25-116 | with every field present, success needs each later check to pass |
| InvitationsApi.PostSucceedsIff | app/api/invitations/route.ts:11-116 | in a consistent database an invitation is stored exactly when the inviter may invite and the generated id and token are unused |
| InvitationsApi.OwnerIsNeverInvited | app/api/invitations/route.ts:64-69 | asking for the owner role always fails |
| InvitationsApi.PostChecksInOrder | app/api/invitations/route.ts:11-99 | the route's eight failing checks come in its order, each reached only when the earlier ones pass: 401, 400 fields, 400 email, 403 non-member, 403 plain member, 400 role, 400 already a member, 400 already invited |
| InvitationsApi.PostKeepsConsistent | app/api/invitations/route.ts:85-116 | creating an invitation keeps the database consistent |
| InvitationsApi.ExpireIfStale | app/api/invitations/route.ts:171-173 | a pending row past its expiry becomes expired; any other row is unchanged |
| InvitationsApi.ExpireEach | app/api/invitations/route.ts:170-175 | the loop expires each loaded row on its own |
| InvitationsApi.SaveExpired | app/api/invitations/route.ts:170-175 | the saves change only the user's stale rows in the table |
| InvitationsApi.Get | app/api/invitations/route.ts:142-198 | no session or no email gives 401 and changes nothing; success is 200 and touches only invitations |
| InvitationsApi.ExpireThenKeepPending | app/api/invitations/route.ts:170-178 | expiring then keeping pending rows keeps exactly the rows not yet expired |
| InvitationsApi.GetBodyIsUnexpiredQueryRows | app/api/invitations/route.ts:159-188 | the listed rows are the query rows whose expiry is not before now, in query order |
| InvitationsApi.GetListsUnexpiredPending | app/api/invitations/route.ts:159-188 | the list is newest first and holds exactly the address's pending rows not yet expired, those expiring now included, each as often as stored |
| InvitationsApi.GetExpiresOnlyStaleRowsOfTheUser | app/api/invitations/route.ts:168-175 | only the user's pending rows past expiry change, to expired |
| InvitationsApi.GetTwiceSavesNothingMore | app/api/invitations/route.ts:168-175 | a second listing at the same time changes nothing more |
| InvitationsApi.GetKeepsConsistent | app/api/invitations/route.ts:168-175 | listing keeps the database consistent |
| InvitationAcceptApi.FindByToken | app/api/invitations/accept/route.ts:33-36 | the lookup gives the first row carrying the token, and none exactly when no row does |
| InvitationAcceptApi.Accept | app/api/invitations/accept/route.ts:4-113 | users and offices are never changed, and success is 200 |
| InvitationAcceptApi.StatusOnlyLeavesPending | app/api/invitations/accept/route.ts:54-95 | only the token's row changes, only from pending to expired or accepted, and never to declined |
| InvitationAcceptApi.EarlyFailuresChangeNothing | app/api/invitations/accept/route.ts:10-59 | the 401, 400 token, 404, 403 and not-pending replies come in order and store nothing |
| InvitationAcceptApi.ExpiredInvitationIsMarked | app/api/invitations/accept/route.ts:62-69 | a redeemable invitation past its expiry becomes expired, with no membership created |
| InvitationAcceptApi.MemberRedeemingIsMarkedAccepted | app/api/invitations/accept/route.ts:72-83 | a member redeeming becomes accepted without a second membership |
| InvitationAcceptApi.RedeemingAddsOneMembership | app/api/invitations/accept/route.ts:86-105 | otherwise one membership is added for the user, office and role, the row is accepted, and the office is returned |
| InvitationAcceptApi.SecondAcceptFails | app/api/invitations/accept/route.ts:54-59 | a token already redeemed fails as no longer pending and stores nothing |
| InvitationAcceptApi.AcceptAddsOnlyNewMemberships | app/api/invitations/accept/route.ts:72-91 | accepting adds at most one membership, only for a user not yet in the office, and only in an office some invitation names |
| InvitationAcceptApi.StatusStepsKeepInvitationConstraints | app/api/invitations/accept/route.ts:62-95 | changing pending rows to expired or accepted keeps tokens unique, keeps at most one pending row per address and office, and keeps every invitation's office |
| InvitationAcceptApi.AddingNewMembershipKeepsConstraints | app/api/invitations/accept/route.ts:86-91 | a membership for a non-member in an existing office keeps memberships unique and their offices present |
| InvitationAcceptApi.AcceptKeepsConsistent | app/api/invitations/accept/route.ts:61-95 | accepting keeps the database consistent |
| OfficesApi.BlankNameIffAllWhitespace | app/api/offices/route.ts:17 | a name is rejected exactly when it is absent or all whitespace |
| OfficesApi.CleanDescription | app/api/offices/route.ts:35 | the stored description is the trimmed text, or null exactly when it is absent or all whitespace |
| OfficesApi.Post | app/api/offices/route.ts:4-64 | no session gives 401 and a blank name 400, both storing nothing; success stores the trimmed office and an owner membership for the creator and replies with role owner |
| OfficesApi.StoredNameIsTrimmed | app/api/offices/route.ts:33-37 | the stored name is non-empty with no whitespace at either end |
| OfficesApi.AddingOfficeKeepsConsistent | app/api/offices/route.ts:33-37 | saving a new office breaks no constraint |
| OfficesApi.AddingFirstMembershipKeepsConsistent | app/api/offices/route.ts:40-45 | the first membership of an existing office breaks no constraint |
| OfficesApi.PostKeepsConsistent | app/api/offices/route.ts:32-45 | creating an office keeps the database consistent |
| OfficesApi.Entries | app/api/offices/route.ts:89-95 | each entry carries its membership's office and role, and a missing office makes the mapping fail |
| OfficesApi.Get | app/api/offices/route.ts:66-105 | no session gives 401; success is 200 |
| OfficesApi.GetListsEveryMembership | app/api/offices/route.ts:82-95 | when every membership's office exists, the list has one entry per membership of the user, with its office and role, newest first |
| AvatarApi.OrDefault | app/api/avatar/route.ts:84-86 | a truthy column is returned and an unset or empty one gives the default |
| AvatarApi.FindUser | app/api/avatar/route.ts:29 | `findOneBy` gives the first user with the id, and none exactly when there is none |
| AvatarApi.Put | app/api/avatar/route.ts:4-59 | failures store nothing; no session gives 401, a missing field 400; success updates only the session user's avatar columns, with accessories defaulting to [] |
| AvatarApi.Get | app/api/avatar/route.ts:61-97 | no session gives 401, a missing user 404, and success has non-empty colours and style |
| AvatarApi.UnsetColumnsReadAsDefaults | app/api/avatar/route.ts:82-89 | unset columns read back as `#3498db`, `#ffdbac`, `default` and [] |
| AvatarApi.PutThenGetRoundTrip | app/api/avatar/route.ts:36-41 | after a successful PUT, GET returns exactly what the PUT returned |
| AvatarApi.AnyStyleIsStored | app/api/avatar/route.ts:17-41 | any non-empty style is stored, whether or not it is one of the four |
| AvatarApi.PutKeepsConsistent | app/api/avatar/route.ts:35-41 | saving avatar settings keeps the database consistent |

## Left out

- Transport. The HTTP server, the WebSocket transport and JSON
  (de)serialisation are left out. Frames are datatypes, a frame that does
  not parse is `Unparseable`, and socket state is a parameter. Non-string
  JSON values in request bodies are not modelled: every field is a string
  or absent.
- Rendering. three.js meshes, materials, lighting, the camera and its
  movement vectors, the ±9 clamp and the `updateAvatar` lerp are left out
  because they are floating-point work inside a foreign library. Avatars
  appear only as the values they are built from.
- Browser timers and storage. The chat's 10-second auto-hide, focus delays,
  reconnect timers and the stored environment choice are left out because
  they are clock and browser I/O.
- Randomness and ids. Guest ids and names, uuids, the random token bytes and
  the calendar-week expiry are parameters. The model keeps the properties
  of the token derived from them.
- Js.ToLowerCase: maps only A-Z and keeps the length. Full Unicode case
  mapping is not modelled. The lower-cased key is only compared with the
  eight ASCII navigation keys (components/OfficeScene.tsx:150-159, 593-595).
  No non-ASCII key lower-cases to one of them, so gating and movement are
  unaffected.
- PresenceServer.OnJoin: a `join` without a `userId` is treated like one
  with the empty id. JavaScript would store it under the key `undefined`.
- Avatar.HashExactAsDouble: exactness is proved for ids of up to 2^21 code
  units only. Longer ids could push the hash past 2^53, where doubles round.
- InvitationsApi.Get: the office and inviter names the route joins into each
  entry are not modelled. Each entry is the stored row. The 500 a missing
  relation would cause is also not modelled.
- Other 500 paths. Database failures and malformed request bodies are not
  modelled. Modelled 500s:
  - key collisions;
  - the accept route's missing office after its saves;
  - the offices listing's missing office.
- SettingsPanel.HandleSave: states the panel after the save has finished.
  The intermediate `isSaving` state and the disabled buttons are not
  modelled.
- Store.SortDesc: rows with equal `createdAt` keep their table order. The
  database leaves the order of ties unspecified.
- Middleware, authentication, the database and ORM wrappers, the entity
  declarations (their enums are datatypes here), and the UI-only components
  and pages are not part of this model.
