# RUET Connect, modelled in Dafny

RUET Connect is an alumni-network web application. This project models the
parts of it that decide what is stored and what is shown:

- the browser-side record store `db.ts`: posts, likes, comments,
  notifications, sign-in, users, jobs and events;
- the chat state machine of `context/SocketContext.tsx`: one connection per
  signed-in user, the online list, the open conversation's message buffer, the
  history fetch and sending;
- the list and selection logic of the pages and components that sit on top of
  them.

Each source file has one Dafny module:

| module | file | models |
|---|---|---|
| `Db` | `db.dfy` | `db.ts` |
| `Socket` | `socket.dfy` | `context/SocketContext.tsx` |
| `App` | `app.dfy` | `App.tsx` (auth state, route guards) |
| `Feed` | `feed.dfy` | `pages/Feed.tsx` |
| `Jobs` | `jobs.dfy` | `pages/Jobs.tsx` |
| `Profile` | `profile.dfy` | `pages/Profile.tsx` |
| `Navbar` | `navbar.dfy` | `components/Navbar.tsx` |
| `Network` | `network.dfy` | `pages/Network.tsx` |
| `Mentorship` | `mentorship.dfy` | `pages/Mentorship.tsx` |
| `Events` | `events.dfy` | `pages/Events.tsx` |
| `GroupView` | `groupview.dfy` | `pages/GroupView.tsx` |
| `Admin` | `admin.dfy` | `pages/AdminDashboard.tsx` |
| `ChatSurface` | `chatsurface.dfy` | `components/ChatWidget.tsx` and `pages/Messages.tsx` |

Three modules are shared by the others:

- `Types` holds one datatype per interface of `types.ts`.
- `Text` restates the JavaScript string operations the code relies on:
  - `toLowerCase`, `trim` and `includes`;
  - `substring`, which clamps and swaps its arguments;
  - `split` on a character class;
  - the truthiness of a string;
  - the decimal rendering of `Date.now()`;
  - the default `sort` order.
- `Seqs` holds the array operations:
  - `filter`, `find` and `slice`;
  - `splice(i, 1)`;
  - de-duplication through a `Set`;
  - a stable descending sort.

How the program's surroundings are represented:

- **State.** Every piece of storage or React state is an immutable value, and
  every operation is a pure function from the old value to the new one.
  `localStorage` is the `Db.Store` record.
- **Clock.** `Date.now()` is the `now: nat` parameter, from which the fresh ids
  are built: `post_`, `comment_`, `notif_`, `user_`, `job_` or `event_`
  followed by the decimal number.
- **Socket.** The socket is a handle number in `ChatState`. The `emit` calls
  are appended to an `outbox`.
- **Server answers.** What the server answers (`fetch`, the async methods the
  store does not define) is a parameter.
- **Dates.** Date parsing is the `toMillis` parameter.

## Model

| member | source | states |
|---|---|---|
| Types.NameOr | pages/Jobs.tsx:126 | the signed-in user's name when non-empty, else the fallback (`Anonymous` for a job poster, `RUET Community` for an event organizer) |
| Types.NameOrNonEmpty | pages/Jobs.tsx:126 | with a non-empty fallback the name shown is never empty, signed in or not |
| Db.GetPosts | db.ts:95 | the posts come back newest first, and as a permutation of what is stored |
| Db.GetNotifications | db.ts:97-101 | with a truthy user id: exactly that user's notifications, each as often as it is stored, newest first; otherwise every stored notification |
| Db.PostIndex | db.ts:119 | the position of the first post with the id; every earlier post has another id |
| Db.PostIndexFound | db.ts:119-120 | the lookup finds a post exactly when one with that id is stored |
| Db.AddPost | db.ts:103-115 | the new post is first; it has a fresh id, the current time, no likes and no comments; behind it are the posts in feed order |
| Db.AddPostFresh | db.ts:103-115 | with a fresh id the new post is listed by `getPosts` and is the only stored post with its id |
| Db.ToggleLike | db.ts:122-130 | a user not in `likedBy` is appended and the count rises by one; otherwise one entry is removed and the count falls by one; the count minus the likers stays the same |
| Db.ToggleLikeKeepsDistinct | db.ts:122-130 | a like list without duplicates stays without duplicates |
| Db.ToggleLikeUndo | db.ts:122-130 | liking and then unliking gives back the post exactly |
| Db.ToggleLikeTwice | db.ts:122-130 | two toggles by the same user restore the count and the set of likers |
| Db.DistinctCountsOnce | db.ts:122-130 | in a duplicate-free like list a user occurs at most once |
| Db.LikePost | db.ts:117-135 | an unknown post id changes nothing; otherwise only the matching post's like state is toggled, in the feed-ordered list |
| Db.LikeUniquePost | db.ts:117-135 | when a stored post's id is unique, liking it stores exactly that post with the like toggled |
| Db.LikeOnce | db.ts:117-135 | after one like the stored posts are the feed with that post toggled, still newest first, with the post in the same place |
| Db.LikePostTwice | db.ts:117-135 | liking and unliking a post gives back the feed as it was read |
| Db.AddComment | db.ts:137-151 | an unknown post id changes nothing; otherwise the comment, with a fresh id and time, is appended to that post only |
| Db.AddNotification | db.ts:153-163 | the notification goes first, unread, with a fresh id and time; the others follow unchanged |
| Db.MarkNotificationRead | db.ts:165-169 | the notifications with the id become read; no other field and no other notification changes |
| Db.MarkNotificationReadIdempotent | db.ts:165-169 | marking the same id twice is the same as once |
| Db.ClearAllNotifications | db.ts:171-175 | exactly the user's notifications are removed; every other one stays, as often as it was stored, in its order |
| Db.ClearThenGetIsEmpty | db.ts:171-175 | after clearing, the user's notification list reads empty |
| Db.FirstLogin | db.ts:177-181 | some user is found exactly when one has the email (any case) and the password; the one found is the first in the list that does |
| Db.Login | db.ts:177-189 | sign-in succeeds exactly when a user matches; success records the first matching user as signed in; failure changes nothing |
| Db.FirstLoginIgnoresCase | db.ts:179 | emails equal up to case find the same user |
| Db.LoginIgnoresEmailCase | db.ts:177-189 | emails equal up to case give the same sign-in result |
| Db.Logout | db.ts:197-199 | nobody is signed in afterwards; nothing else changes |
| Db.AddUser | db.ts:222-228 | the new user, with a fresh id, is appended after the unchanged users |
| Db.Register | db.ts:191-195 | the new user is stored last and becomes the signed-in user |
| Db.UpdateUser | db.ts:230-239 | every user with that id is replaced, and so is the signed-in user when the ids agree; the others are untouched |
| Db.DeleteUser | db.ts:247-251 | exactly the users with the id are removed; every other one stays, as often as it was stored, in its order |
| Db.AddJob | db.ts:206-212 | the job, with a fresh id, goes in front of the unchanged jobs |
| Db.DeleteJob | db.ts:241-245 | exactly the jobs with the id are removed; every other one stays, as often as it was stored, in its order |
| Db.AddEvent | db.ts:214-220 | the event, with a fresh id, goes in front of the unchanged events |
| Db.DeleteAddedJob | db.ts:206-245 | deleting a job just added, under an id no stored job had, gives back the stored jobs |
| Socket.InitValid | context/SocketContext.tsx:26-31 | the provider starts in a consistent state with no connection |
| Socket.AtMostOneConnection | context/SocketContext.tsx:33-59 | in a consistent state at most one socket is open |
| Socket.ConnectionEffect | context/SocketContext.tsx:33-59 | with a user: the old socket is closed, a new one opens, joins with the user id and captures the active conversation; without a user: no socket |
| Socket.EffectClosesPrevious | context/SocketContext.tsx:52-58 | the effect's cleanup closes every socket the previous run opened, leaving at most one |
| Socket.EffectValid | context/SocketContext.tsx:33-59 | rerunning the effect after a dependency change restores consistency |
| Socket.SetUser | context/SocketContext.tsx:33-59 | signing in or out reconnects or disconnects; the conversation buffer, the active id and the online list are kept, as written |
| Socket.SelectConversation | context/SocketContext.tsx:31-59 | choosing the same peer changes nothing; choosing another one reconnects and captures the new peer |
| Socket.FetchFor | context/SocketContext.tsx:62-64 | the history is fetched exactly when the active id is truthy and a user is signed in |
| Socket.Unmount | context/SocketContext.tsx:52-54 | unmounting closes every socket |
| Socket.Presence | context/SocketContext.tsx:40-42 | a connected socket's presence event replaces the online list; nothing else changes |
| Socket.PresenceLastWins | context/SocketContext.tsx:40-42 | of two presence events only the later one counts |
| Socket.FromWire | context/SocketContext.tsx:70-73 | a server message becomes a chat message with the same ids, content and read flag, and the parsed time |
| Socket.Receive | context/SocketContext.tsx:44-50 | a message is appended only when it belongs to the conversation the handler captured |
| Socket.HistoryMessages | context/SocketContext.tsx:70-73 | the history is converted element by element |
| Socket.HistoryLoaded | context/SocketContext.tsx:66-75 | a successful answer replaces the buffer whatever is active by then, as written |
| Socket.HistoryLoadedFor | context/SocketContext.tsx:62-77 | an answer lands only when its peer is still the active conversation |
| Socket.StaleHistoryOverwrites | context/SocketContext.tsx:62-77 | Alice's late history lands while Bob's conversation is open |
| Socket.TaggedHistoryIgnoresStale | context/SocketContext.tsx:62-77 | with the peer check, a late answer for another peer changes nothing |
| Socket.Send | context/SocketContext.tsx:79-98 | without socket or user nothing happens; otherwise the send is emitted, and it is echoed into the buffer only when the receiver is the active conversation |
| Socket.SignOutKeepsConversation | context/SocketContext.tsx:31-59 | after sign-out the previous user's messages and active conversation are still held |
| Socket.SignOutKeepsPresence | context/SocketContext.tsx:29-59 | after signing out and in as someone else, the previous session's online list is still shown |
| Socket.SetUserFresh | context/SocketContext.tsx:33-59 | when the user changes, the buffer, the active conversation and the online list are cleared; the connection behaves as in the source |
| Socket.SignOutStartsClean | context/SocketContext.tsx:33-59 | signing out and in as someone else starts with an empty buffer, no active conversation and nobody online |
| Socket.Step | context/SocketContext.tsx:26-98 | every event keeps the state consistent (except unmount) with at most one open socket |
| Socket.Run | context/SocketContext.tsx:26-98 | any sequence of events keeps the state consistent with at most one open socket |
| App.Boot | App.tsx:61-66 | the app starts with the store's signed-in user |
| App.Login | App.tsx:68-75 | success iff some stored user matches; on success the app's user is the first matching stored user, only the store's signed-in user changes, and the two agree; on failure nothing changes |
| App.Register | App.tsx:77-80 | the registered user becomes the app's user and is stored last; posts, jobs, events and notifications stay as they were |
| App.Logout | App.tsx:82-85 | nobody is signed in, in the app and in the store |
| App.Apply | App.tsx:68-85 | each auth action keeps the app's user equal to the store's |
| App.ApplyAll | App.tsx:68-85 | any sequence of auth actions keeps the app's user equal to the store's |
| App.RequireAuth | App.tsx:45-49 | the page renders iff someone is signed in; otherwise the redirect is to `/auth?mode=login` |
| App.RequireAuthFollowsSession | App.tsx:45-85 | after sign-out the guard redirects to `/auth?mode=login`; after a successful sign-in or a registration it renders its children |
| App.AdminRoute | App.tsx:51-55 | the page renders iff the user is an administrator; otherwise the redirect is to `/` |
| App.AuthRoute | App.tsx:99-102 | the sign-in page renders iff nobody is signed in; otherwise the redirect is to `/` |
| App.LogoutClosesAdmin | App.tsx:51-85 | after sign-out the admin page redirects and the sign-in page renders |
| App.RegisterAdminOnlyByRole | App.tsx:51-80 | a newly registered user reaches the admin page iff they registered as an administrator |
| Feed.LoadPosts | pages/Feed.tsx:37-45 | "all", or no user: the feed in store order; "connections": exactly the posts by a demo connection or by the user, each as often as stored, in feed order |
| Feed.Favorites | pages/Feed.tsx:33-34 | the first four users other than the signed-in one, in store order (all of them when there are fewer) |
| Feed.FavoritesSignedOut | pages/Feed.tsx:33-34 | signed out, the panel is the first four stored users |
| Feed.InsertText | pages/Feed.tsx:47-65 | the selection is wrapped in the markers; the text around it is unchanged; the new selection covers the same text |
| Feed.InsertAtCaret | pages/Feed.tsx:47-65 | with an empty selection the markers are inserted at the caret, and the caret sits between them |
| Feed.SubmitPost | pages/Feed.tsx:67-93 | blank content or no user stores nothing; otherwise the post is stored first with a fresh id and time, the user's id, name, avatar and role, the text, no likes or comments, and the composer's medium iff a URL was given |
| Feed.SubmittedPostIsLikeable | pages/Feed.tsx:67-99 | the submitted post is shown in the "all" feed, and liking it at once stores it with one like, from the author |
| Feed.HandleLike | pages/Feed.tsx:95-99 | with a user the like on the post is toggled; without one nothing happens |
| Feed.HandleLikeTwice | pages/Feed.tsx:95-99 | two clicks on the heart give back the feed as read |
| Feed.SubmitComment | pages/Feed.tsx:101-113 | a blank or missing draft, or no user, changes nothing; otherwise a comment with the text under the user's id, name and avatar is appended to that post, its earlier comments and every other post stay as read, and only that draft is cleared |
| Jobs.FilteredJobs | pages/Jobs.tsx:111-119 | exactly the jobs matching the search (and, on the applied tab, applied to), each as often as stored, in order |
| Jobs.EmptySearchListsAll | pages/Jobs.tsx:111-119 | the browse tab with an empty search lists every job |
| Jobs.AppliedTabWithinBrowse | pages/Jobs.tsx:111-119 | the applied tab shows exactly the browse tab's jobs the user applied to |
| Jobs.Requirements | pages/Jobs.tsx:129 | every requirement is non-empty, has no surrounding space and holds no comma or newline; there are at most one more than separators |
| Jobs.SingleRequirement | pages/Jobs.tsx:129 | text without a separator gives one requirement, the trimmed text |
| Jobs.RequirementsCons | pages/Jobs.tsx:129 | the text before the first separator gives its trimmed self, unless blank, followed by the requirements of the text after it |
| Jobs.BlankRequirement | pages/Jobs.tsx:129 | a blank field without a separator lists no requirement |
| Jobs.PostJob | pages/Jobs.tsx:121-138 | the job goes in front of the stored jobs with a fresh id, the form's title, company, location, type, salary and description, the poster's name (else `Anonymous`) and id (else `anonymous`), and the split requirements |
| Jobs.PostedJobNamesPoster | pages/Jobs.tsx:121-138 | every posted job names a non-empty poster and owner id |
| Jobs.DeletePostedJob | pages/Jobs.tsx:121-138 | deleting a job just posted, under an id no stored job had, gives back the stored jobs |
| Jobs.Apply | pages/Jobs.tsx:140-160 | a request is made iff a user is signed in and has not applied yet; the job joins the set only when it succeeds |
| Jobs.ApplyIdempotent | pages/Jobs.tsx:140-160 | applying again after a success changes nothing and makes no request |
| Profile.IsOwner | pages/Profile.tsx:30 | the owner view iff the signed-in user's id is the route's |
| Profile.OwnerSaveUpdatesSession | pages/Profile.tsx:30-72 | when the owner saves, the signed-in user becomes the edited record |
| Profile.VisitorSaveKeepsSession | pages/Profile.tsx:30-72 | a save of someone else's page leaves the signed-in user as it was |
| Profile.UserPosts | pages/Profile.tsx:47 | exactly the route user's posts, each as often as stored, in feed order |
| Profile.NoPostsNoList | pages/Profile.tsx:47 | a member who never posted has an empty list |
| Profile.UserPostsNewestFirst | pages/Profile.tsx:47 | read from the feed, the profile's posts are newest first |
| Profile.DisplayedPosts | pages/Profile.tsx:198 | "show all": every post; otherwise the first two |
| Profile.Save | pages/Profile.tsx:65-72 | an edited copy replaces the stored user with its id, and the signed-in user when it is the same member; every other user, the session otherwise, and every other list stay as they were |
| Profile.SaveIdempotent | pages/Profile.tsx:65-72 | saving the same copy again changes nothing more |
| Profile.WithList | pages/Profile.tsx:114-138 | the edit writes the chosen list field and no other |
| Profile.AddItem | pages/Profile.tsx:114-122 | the field's placeholder is appended to that list only |
| Profile.RemoveItem | pages/Profile.tsx:124-130 | the item at the index is cut out; an index past the end changes nothing |
| Profile.RemoveAddedItem | pages/Profile.tsx:114-130 | removing the just-added last item gives back the user |
| Profile.UpdateListItem | pages/Profile.tsx:132-138 | the item at the index is replaced and nothing else changes |
| Profile.UpdateSameValue | pages/Profile.tsx:132-138 | writing back the current value changes nothing |
| Profile.AddExperience | pages/Profile.tsx:140-154 | a blank experience with a fresh id goes in front of the list |
| Profile.AddExperienceTwice | pages/Profile.tsx:140-154 | a second add puts the newer entry first and keeps the first entry second, ahead of the old list |
| Profile.RemoveExperience | pages/Profile.tsx:754-756 | the edit keeps exactly the entries with other ids, in order and multiplicity; the rest of the user is unchanged |
| Profile.RemoveAddedExperience | pages/Profile.tsx:140-756 | removing an entry just added with a fresh id gives back the user as it was |
| Profile.AddProject | pages/Profile.tsx:156-169 | a blank project with a fresh id goes in front of the list |
| Profile.RemoveProject | pages/Profile.tsx:171-178 | exactly the projects with the id are removed; every other one stays, as often as it was listed, in its order |
| Profile.RemoveAddedProject | pages/Profile.tsx:156-178 | removing a just-added project gives back the user |
| Navbar.FirstMatches | components/Navbar.tsx:67-69 | the first three matches in order (all of them when there are fewer) |
| Navbar.Search | components/Navbar.tsx:59-74 | a blank query finds nothing; otherwise each group is the first three users, jobs or events matching the trimmed, lower-cased query, in store order |
| Navbar.BlankQueryFindsNothing | components/Navbar.tsx:61-64 | a query of white space alone finds nothing |
| Navbar.UserSearchIgnoresCase | components/Navbar.tsx:66-67 | queries equal up to case find the same users |
| Navbar.UnreadCount | components/Navbar.tsx:76 | the count is zero iff every notification is read |
| Navbar.MarkReadLowersCount | components/Navbar.tsx:76-88 | marking an id read never raises the count, and lowers it when an unread one had that id |
| Navbar.LoadNotifications | components/Navbar.tsx:35-41 | with a user, that user's notifications, each as often as stored and newest first (every notification when the id is empty); without one, none |
| Navbar.MarkAsRead | components/Navbar.tsx:85-88 | the store marks the id read and the list is what a reload for the user shows |
| Navbar.MarkedAreRead | db.ts:165-169 | every notification with the id is read afterwards |
| Navbar.StoreMarkLowersUnread | components/Navbar.tsx:76-88 | marking read never raises the store's unread count |
| Navbar.ClearAll | components/Navbar.tsx:90-95 | with a user, the list is emptied and the store drops exactly that user's notifications, keeping the others in order and multiplicity; the rest of the store is unchanged |
| Navbar.UnreadCountAdd | components/Navbar.tsx:76 | one more unread notice in the list raises the badge count by exactly one |
| Navbar.ClearAllThenReload | components/Navbar.tsx:90-95 | reloading after clearing shows nothing |
| Network.AllSkills | pages/Network.tsx:21-27 | every member skill once, in sorted order, and nothing else |
| Network.AllSkillsOrderFree | pages/Network.tsx:21-27 | the chips do not depend on the order the members were loaded in |
| Network.AllSkillsDistinct | pages/Network.tsx:21-27 | no chip repeats |
| Network.FilteredUsers | pages/Network.tsx:29-39 | exactly the members passing the search and the chip, each as often as loaded, in order |
| Network.NoFilterListsAll | pages/Network.tsx:29-39 | no search and no chip list every member |
| Network.ChipNarrows | pages/Network.tsx:29-39 | choosing a chip only removes members |
| Network.ToggleSkill | pages/Network.tsx:122 | clicking the selected chip clears it; any other chip becomes the selection |
| Network.ToggleTwice | pages/Network.tsx:122 | two clicks on an unselected chip clear the selection |
| Network.SendRequest | pages/Network.tsx:41-67 | with a user, an unread notification of the matching kind addressed to them goes first; without one nothing is stored |
| Network.RequestShowsInBell | pages/Network.tsx:41-67 | the request's notice, addressed to the signed-in user who sent it, is listed in their bell and raises their unread count by one |
| Mentorship.AllSkills | pages/Mentorship.tsx:68 | the mentors' skills, each once, ordered by where each first appears |
| Mentorship.FirstSkillLeads | pages/Mentorship.tsx:68 | the first skill of the first mentor who lists any heads the list |
| Mentorship.AllSkillsKeepsDistinct | pages/Mentorship.tsx:68 | skills already distinct come out exactly as listed |
| Mentorship.FilteredMentors | pages/Mentorship.tsx:70-75 | exactly the mentors passing search and expertise, never the user, each as often as loaded, in order |
| Mentorship.NoFilterListsAll | pages/Mentorship.tsx:70-75 | signed out with empty boxes, every mentor is listed |
| Mentorship.ActiveMentorships | pages/Mentorship.tsx:201-205 | exactly the accepted outgoing requests, each as often as loaded, in order |
| Mentorship.NoneActiveIff | pages/Mentorship.tsx:201-202 | the empty message shows iff no outgoing request was accepted |
| Events.FilteredEvents | pages/Events.tsx:33-37 | exactly the events whose title, location or type holds the term, ignoring case, each as often as stored, in order |
| Events.TypeNameFindsType | pages/Events.tsx:33-37 | searching a type name finds every event of that type |
| Events.Click | pages/Events.tsx:51-55 | a registered event starts nothing; otherwise it shows as loading and a registration starts |
| Events.Complete | pages/Events.tsx:57-59 | the event joins the registered set and nothing is loading |
| Events.RegisteredClickIsNoop | pages/Events.tsx:51-62 | once registered, clicking again starts nothing |
| Events.CompleteIdempotent | pages/Events.tsx:57-59 | two completions leave the same set as one |
| Events.CanCreateEvent | pages/Events.tsx:69 | creation is offered iff the user is an administrator or faculty |
| Events.RegisteredRoleDecides | pages/Events.tsx:69 | a member who just signed up may create events iff they registered as administrator or faculty |
| Events.OthersCannotCreate | pages/Events.tsx:69 | students, alumni, mentors, companies and teachers never may, nor anyone after sign-out |
| Events.BlankForm | pages/Events.tsx:18-48 | the form opens and resets as a meetup with the default image |
| Events.BlankFormCreatesMeetup | pages/Events.tsx:18-49 | an event created from the blank form is a meetup with the default image, an empty title and no one interested yet |
| Events.CreateEvent | pages/Events.tsx:39-49 | the event goes in front of the stored events with a fresh id, the form's title, date, time, type, location, image and description, the organizer and nobody interested |
| Events.CreatorIsOrganizer | pages/Events.tsx:39-69 | every created event names an organizer, and one allowed to create it is credited by name |
| GroupView.Open | pages/GroupView.tsx:13-19 | the page opens with the spinner, without a group or posts, not a member, with an empty form |
| GroupView.OpenPageIsInert | pages/GroupView.tsx:13-79 | before a group loads, the membership effect changes nothing and the empty form stores nothing |
| GroupView.FetchGroupData | pages/GroupView.tsx:21-45 | without a route id nothing happens; a failed group list keeps the spinner; no group with the id stops it and leaves the page; otherwise the first group with the id is shown, and its posts, once answered, are listed and stop the spinner, while a failed post call keeps it |
| GroupView.SpinnerStopsIffAnswered | pages/GroupView.tsx:33-45 | the spinner stops exactly when the group list arrived and either no group has the id or its posts arrived |
| GroupView.LoadedPageSettles | pages/GroupView.tsx:27-98 | with both calls answered, the page shows the group iff one has the id, lists its posts, and the effect then reads its member list |
| GroupView.SyncMembership | pages/GroupView.tsx:27-31 | with a group and a user, membership is recomputed from the member list; otherwise it is kept |
| GroupView.SyncIdempotent | pages/GroupView.tsx:27-31 | running the membership effect again changes nothing |
| GroupView.PrivatePostsForMembersOnly | pages/GroupView.tsx:29-98 | a private group's posts are visible iff the user is in its member list |
| GroupView.PublicPostsForAll | pages/GroupView.tsx:98 | a public group's posts are visible to everybody |
| GroupView.JoinLeave | pages/GroupView.tsx:47-55 | without an id or an answer nothing changes; otherwise the answered group is shown and membership flips |
| GroupView.JoinLeaveAgreesWithServer | pages/GroupView.tsx:27-55 | when the server's group reflects the toggle, the flipped flag is what the effect recomputes |
| GroupView.EffectSettlesJoinLeave | pages/GroupView.tsx:27-55 | once the effect runs, membership follows the server's member list |
| GroupView.PostSubmit | pages/GroupView.tsx:57-79 | blank content, no user or no id stores nothing; otherwise the post is added to the stored posts under the user, with the image as its only medium, the form clears, and the listed posts become the reloaded ones when the reload answers |
| GroupView.SubmitTwiceStoresOnce | pages/GroupView.tsx:57-79 | submitting again at once stores nothing more |
| GroupView.GroupPostReachesFeed | pages/GroupView.tsx:57-79 | the group's post lands in the shared post list that the main feed reads |
| Admin.VerifyUser | pages/AdminDashboard.tsx:30-34 | the member is stored back with the flag flipped; other members and lists are untouched; the signed-in user follows the edit when it is that member and is unchanged otherwise |
| Admin.VerifyFlipsOnlyFlag | pages/AdminDashboard.tsx:30-34 | the stored record differs from the old one in the verification flag alone |
| Admin.VerifyTwiceRestores | pages/AdminDashboard.tsx:30-34 | verifying twice gives back the member list |
| Admin.DeleteUser | pages/AdminDashboard.tsx:23-28 | unconfirmed: nothing changes; confirmed: exactly the members with the id are removed, every other one kept as often as stored |
| Admin.FilteredUsers | pages/AdminDashboard.tsx:36 | exactly the members whose lower-cased name holds the lower-cased term, each as often as loaded, in order |
| Admin.EmptySearchListsAll | pages/AdminDashboard.tsx:36 | an empty search lists every member |
| Admin.VerifyKeepsStats | pages/AdminDashboard.tsx:53-55 | verifying moves no counter |
| Admin.DeleteLowersMembers | pages/AdminDashboard.tsx:23-55 | a confirmed deletion of a listed member lowers the member count and no other |
| ChatSurface.WidgetVisible | components/ChatWidget.tsx:14 | the widget shows iff someone is signed in |
| ChatSurface.WidgetFollowsSession | components/ChatWidget.tsx:14 | the widget shows exactly when the `RequireAuth` guard would render its children: hidden after sign-out, shown after a successful sign-in |
| ChatSurface.OnlineList | components/ChatWidget.tsx:17 | the online ids other than the user's, each as often as reported, in order |
| ChatSurface.Badge | components/ChatWidget.tsx:33 | the badge shows iff someone other than the user is online |
| ChatSurface.AloneNoBadge | components/ChatWidget.tsx:17-33 | being the only one online shows no badge |
| ChatSurface.OnlineListFollowsSnapshot | components/ChatWidget.tsx:17 | the widget's list follows the latest presence event |
| ChatSurface.HandleSend | components/ChatWidget.tsx:19-24 | no active conversation or a blank message does nothing; otherwise the message goes to the active peer and the input clears |
| ChatSurface.SendEchoesIntoConversation | pages/Messages.tsx:24-29 | a send that passes the guard, when connected, is emitted and appended to the open conversation as the user's own unread message |
| ChatSurface.Sidebar | pages/Messages.tsx:15-22 | every member but the signed-in one, each as often as loaded, in order; all of them when signed out |
| ChatSurface.FilteredUsers | pages/Messages.tsx:31-34 | exactly the members whose name or department holds the term, ignoring case, each as often as listed |
| ChatSurface.EmptySearchListsSidebar | pages/Messages.tsx:31-34 | an empty search lists the whole sidebar |
| ChatSurface.ActiveUser | pages/Messages.tsx:36 | the first listed member whose id is the active conversation, if any |
| ChatSurface.SelfNeverActive | pages/Messages.tsx:19-36 | the signed-in user is never shown as the conversation partner |
| ChatSurface.OnlineDotAgrees | pages/Messages.tsx:69 | a listed member's online dot agrees with the widget's online list |

## Left out

- Seeding the store on first load (`db.init`) and the sample data: they only fill `localStorage`.
- The job-match score from the Gemini API (`pages/Jobs.tsx:64-109`): it is a network call to an external model.
- Post formatting (`formatContent`), markup, icons, toasts, modals and the `setTimeout` delays: they affect presentation only. The interest button's 1.2 second delay is the split between `Events.Click` and `Events.Complete`.
- The socket.io transport and the HTTP `fetch` of the history: a socket is a handle number, emits go to an outbox, and the fetch answer is a parameter.
- Server methods the store does not define: `getMentors`, `getMentorshipRequests`, `getAppliedJobs`, `getPendingConnections`, `getOutgoingRequests`, `applyToJob`, `getGroups`, `getGroupPosts` and `joinGroup`. The model takes the pages as written against a server layer that provides them: their answers, and where the page's flow depends on it their failure, are parameters. Against `db.ts` alone each of these calls throws, so the jobs, mentorship, profile and group pages would stop at their first such call; the model does not follow that reading.
- App.tsx defines `RequireAuth` but routes no page through it, has no route for the group page or the messages page, and mounts neither `SocketProvider` nor `ChatWidget`. These are modelled as units on their own, and no claim is made about which route shows them.
- Feed.InsertText: offsets count characters (Unicode scalar values), not the UTF-16 code units that `selectionStart`, `substring` and `length` count; text outside the Basic Multilingual Plane before the selection shifts the positions.
- GroupView.PostSubmit: the draft's `groupId` is dropped. The post record of `Types` has no such field; `addPost` spreads it into the stored object, but nothing in the model reads it.
- `localStorage` serialisation: the store is a record of sequences.
- Reading an absent optional array as `[]`: `Types` uses empty sequences for absent arrays.
- Date parsing (`new Date(createdAt).getTime()`): it is the `toMillis` parameter.
- `toLowerCase` folds only ASCII letters. The string order compares characters as Unicode scalar values, not as UTF-16 code units.
- Profile.UpdateListItem: requires an index inside the list, because JavaScript's write past the end of an array (which leaves holes) is not modelled.
- Socket.SetUser: models the provider as written. The corrected `Socket.SetUserFresh` is the one `Socket.Step` uses (see Findings).
- Socket.HistoryLoaded: models the fetch as written. The corrected `Socket.HistoryLoadedFor` is the one `Socket.Step` uses (see Findings).
- Socket.SignOutKeepsConversation: the buffer holds the current conversation's messages (the comment at context/SocketContext.tsx:30), so a change of user should start with an empty buffer, no active conversation and no stale online list. The code keeps all three; the model follows the code and records the gap as a finding.

## Findings

| source | as written | input that shows it | evidently intended | confidence | as-written member | corrected member |
|---|---|---|---|---|---|---|
| context/SocketContext.tsx:62-77 | the history answer replaces the buffer whatever conversation is active when it arrives | select `alice`, then `bob` before Alice's history answer arrives; Alice's messages fill Bob's conversation | drop an answer whose peer is no longer active | not executed | Socket.StaleHistoryOverwrites | Socket.TaggedHistoryIgnoresStale |
| context/SocketContext.tsx:31-59 | signing out keeps the message buffer and the active conversation id | user signs out while talking to `u42` with 3 messages; the next user to sign in sees them | a change of user clears the buffer and the active conversation | not executed | Socket.SignOutKeepsConversation | Socket.SignOutStartsClean |
| context/SocketContext.tsx:29-59 | signing out keeps the online list; nothing but the next `onlineUsers` event replaces it | the online list holds `u7` and `u9` when the user signs out; the next user to sign in is shown them online before the new socket reports | a change of user empties the online list until the new socket's first snapshot | not executed | Socket.SignOutKeepsPresence | Socket.SetUserFresh |
