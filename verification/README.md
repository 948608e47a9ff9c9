# Verified model of the remote-support system

A Dafny model of the parts of the system whose correctness spans many steps, and proofs about it.
`dafny verify dfyconfig.toml` checks everything.

| files | part of the system |
|---|---|
| `SlidingWindow`, `RateLimiter` | the sliding-window rate limiter in front of the sign-in routes: a map of timestamp buckets filtered in place, a background sweep, and the promise that it behaves like a ledger that never forgets |
| `ColorMath`, `PlaneLayout`, `ColorConversion` | the BGRA to I420 conversion of the screen-capture codec and its inverse: pixel arithmetic, plane layout, the loops over one reused buffer, and the error of a round trip through both |
| `VideoEnvelope`, `Outboxes`, `Hub`, `Sessions`, `Relay`, `Router` | the WebSocket relay: binary envelope, bounded outbound queues, presence hub, session registry, the whole as a state machine, and the server's methods proved to take its steps |
| `Friendships`, `FriendsHandler` | the friendships table, its upsert and its handlers, and the queries derived from it |
| `Lockout`, `CommunityRoles` | login lockout with its time bounds, and role changes in communities |
| `Pagination`, `Migrations`, `MigrationRunner`, `Totp` | keyset pagination, the migration runner, and one-time password verification |
| `Options`, `Bytes`, `Lists`, `Texts`, `Durations`, `History` | vocabulary shared by the others; `History` says what holds because an event started it and none ended it since |

State the system updates in place is held by classes whose methods are proved against functions on
values; the theorems over whole runs are about those functions. A run is a sequence of events,
newest last.

## Assumptions

- The clock never goes backwards within a run of the limiter or of login attempts. Instants are whole
  nanoseconds, for passwords of the second factor whole seconds.
- Each handler and each SQL statement is one atomic step. Database calls succeed unless a statement
  speaks of their failure (the migration runner).
- The encoder and the decoder take any size, the decoder any strides. That the encoder leaves an I420
  image is stated for even sizes; `OverlapFreeExactlyWhenEven` shows that these are exactly the sizes
  whose planes do not overlap.
- The friendships table carries the self-check and the unique index on the unordered pair of
  `server/migrations/004_social_messages.up.sql`; roles carry the check of
  `server/migrations/003_communities.up.sql`, and ban records the unique key of
  `server/migrations/006_production_additions.up.sql`. A row's position stands for its ID.
- JSON decoding, HMAC and the decoding of a secret (upper case and base32) are parameters. Of JSON decoding only this is used: what it
  accepts starts with white space or with the first byte of a JSON value (sections 2 and 3 of
  RFC 8259). Of HMAC, that its result has 20 bytes.

## Where the code does something else than it seems to promise

Each is proved with its exact condition, most also with an input where it shows; the model follows the
code.

- The Retry-After header cuts off the fraction of a second, so a client that obeys it is sent back
  too early unless the delay was a whole number of seconds (`HeaderIsExactOnlyOnWholeSeconds`, `HeaderInvitesTooEarly`).
- For odd sizes the chroma planes overlap (`OverlapFreeExactlyWhenEven`), and for some of them the
  encoder writes behind the buffer and panics, 4x3 for example (`WritesFitExactly`).
- The length check on binary frames is in uint32: an announced length within 8 of 2^32 wraps and ends
  the reader by a panic (`OutOfRangeExactly`, `HeaderOnlyFrameIsOutOfRange`).
- Two connections may share a client ID. The end of either removes whatever stands under the ID, so
  the other stays connected and unreachable (`ReachableExactlyWhenAddedLast`,
  `SecondWindowBecomesUnreachable`).
- Written, queued and dropped do not make up all frames sent to a connection: they do exactly when no write
  of its running loop fails (`FramesAreLostExactly`). A failed write loses its frame and ends the loop, so
  at most one is lost that way (`EveryDeliveryIsAccountedFor`, `FailedWriteLosesAFrame`).
- Accepting does not check that the row is pending. Whoever was blocked can accept the block and be
  friends without any request (`AcceptedWithoutRequest`), exactly when they had no live row of their
  own towards the blocker (`BlockedCanAcceptExactly`). That a friendship goes back to a request is sure
  exactly when the accept was made on a pending row (`AcceptIsSafeExactlyOnPending`).
- Sending a request again overwrites the sender's own row whatever its status, and so ends a
  friendship or a block (`FriendshipEndsExactly`, `BlockEndsExactly`). The addressee of a friendship
  cannot block the requester (`BlockWorksExactly`, `FriendCannotBeBlocked`).
- An owner can lose the role by joining the own public community again, by being approved into it, by
  a direct addition under another role, or by a ban from any staff member (`OwnerIsLostExactly`,
  `OwnersExactly`, `OwnerLostToStaff`).
- Direct additions check no ranks: any staff member can make anybody an owner (`OnlyOwnersRaise`,
  `StaffMakesOwner`).
- A ban record outlives the membership, and joining neither reads nor clears it. A second ban of a
  member who came back fails and changes nothing (`SecondBanChangesNothing`).
- A migration that was executed but not recorded is executed again (`InterruptedRunsAddUp`,
  `LostRecordRunsTwice`).
- A successful login does not reset the count of failures (`SuccessForgivesNothing`).

## Model

| member | source | states |
|---|---|---|
| `SlidingWindow.LimiterRefinesLedger` | server/internal/middleware/ratelimit.go:63-89 | After any chronological run of calls and sweeps, a call is admitted exactly when a ledger that never forgets holds fewer than `limit` admissions in (now - window, now]; a rejection reports the positive distance to the oldest of them |
| `SlidingWindow.AdmittedIsLedger` | server/internal/middleware/ratelimit.go:63-110 | The admissions of the limiter, bucket filtering and sweeps included, are those of the ledger, over every run |
| `SlidingWindow.AtMostLimitPerWindow` | server/internal/middleware/ratelimit.go:72-88 | For every run, key and real x, at most `limit` calls are admitted with time in (x, x + window] |
| `SlidingWindow.OnlyAdmissionsMatter` | server/internal/middleware/ratelimit.go:91-110 | Sweeps, calls under other keys and rejected calls, anywhere in a run, change neither a decision nor a retry delay |
| `SlidingWindow.StaleIsInvisible` | server/internal/middleware/ratelimit.go:104-106 | A bucket old enough to be deleted holds nothing that any window of at most an hour could still count |
| `SlidingWindow.SweepExactly` | server/internal/middleware/ratelimit.go:97-106 | A sweep deletes exactly the buckets that hold calls all of which are more than two hours old, and leaves the others as they are |
| `SlidingWindow.RejectedExactlyWhenFull` | server/internal/middleware/ratelimit.go:80-88 | After any run a call is refused if and only if the window that ends with it holds `limit` admissions |
| `SlidingWindow.RetryAfterIsExact` | server/internal/middleware/ratelimit.go:80-86 | After a rejection, whatever else follows, a call is admitted if and only if the promised instant is reached; the delay is positive, so the clamp to zero is dead |
| `SlidingWindow.HeaderIsExactOnlyOnWholeSeconds` | server/internal/middleware/ratelimit.go:54 | The Retry-After header drops the fraction: a client that waits what it says is admitted if and only if the time until the oldest admission leaves the window is a whole number of seconds |
| `RateLimiter.HeaderInvitesTooEarly` | server/internal/middleware/ratelimit.go:54 | A second verification mail asked for one nanosecond after the first: the header says 59 and the request it invites is refused |
| `RateLimiter.KeysSeparateRules` | server/internal/middleware/ratelimit.go:29-51 | A key built from a limited path and any address string determines path, address and rule, so no bucket serves two rules; every rule of the table is one the window theorems cover |
| `RateLimiter.PublishedLimits` | server/internal/middleware/ratelimit.go:29-33 | In any run and for any address: at most 10 logins in 15 minutes, 3 forgotten passwords in an hour and 1 verification mail in a minute are admitted, and a call is refused if and only if so many were in the time before it |
| `RateLimiter.Bucket.FilterInPlace` | server/internal/middleware/ratelimit.go:72-79 | Filtering through the aliased slice keeps exactly the timestamps after the threshold, in order, in the same backing array |
| `RateLimiter.Bucket.Append` | server/internal/middleware/ratelimit.go:87 | Appending keeps every earlier timestamp, whether it happens in place or moves to a new backing array |
| `RateLimiter.Bucket.Check` | server/internal/middleware/ratelimit.go:72-88 | On the backing array: what the window has left behind goes; below the limit the call is appended and admitted, otherwise nothing is appended and the delay runs from the oldest kept timestamp |
| `RateLimiter.Bucket.FindLatest` | server/internal/middleware/ratelimit.go:98-103 | The inner loop of the sweep finds the greatest timestamp, or the zero time |
| `RateLimiter.Limiter.Expire` | server/internal/middleware/ratelimit.go:97-106 | The visit of the sweep to a key deletes its bucket exactly when the newest timestamp is more than two hours old, and touches no other |
| `RateLimiter.Limiter.Allow` | server/internal/middleware/ratelimit.go:63-89 | One call changes only its own bucket and takes exactly the step of the specification, with or without an existing bucket |
| `RateLimiter.Limiter.Cleanup` | server/internal/middleware/ratelimit.go:91-110 | A sweep in any key order deletes exactly the stale buckets and leaves all others as they were |
| `RateLimiter.Limiter.Handle` | server/internal/middleware/ratelimit.go:39-61 | Only the three listed paths are limited, each by its own rule, and nothing is when the middleware is disabled |
| `ColorMath.StudioRange` | rustdesk-screencapture/src/lib.rs:88-100 | Luma lies in [16, 235] and chroma in [16, 240] for every pixel (section 2.5 of ITU-R BT.601-7), so the clamps of the encoder never act |
| `ColorMath.EncodesByTheStandard` | rustdesk-screencapture/src/lib.rs:88-100 | For every pixel luma and chroma are within one level of the real-valued equations of section 2.5 of ITU-R BT.601-7 |
| `ColorMath.DecodesByTheStandard` | rustdesk-screencapture/src/lib.rs:127-130 | Before clamping, every decoded channel is within one level of the real-valued inverse |
| `ColorMath.PixelRoundTrip` | rustdesk-screencapture/src/lib.rs:88-130 | Decoding an encoded pixel returns red and green within 2 either way, and blue at most 2 below and 3 above |
| `ColorMath.BoundsAreAttained` | rustdesk-screencapture/src/lib.rs:88-130 | No bound of the round trip can be smaller: for each end of each bound some pixel attains it |
| `ColorMath.GreyRoundTrip` | rustdesk-screencapture/src/lib.rs:88-130 | A grey pixel encodes with neutral chroma and returns within 1 in every channel |
| `PlaneLayout.EveryIndexIsWritten` | rustdesk-screencapture/src/lib.rs:79-105 | For even sizes every index of the n * 3 / 2 buffer is written by some iteration |
| `PlaneLayout.NoIndexIsWrittenTwice` | rustdesk-screencapture/src/lib.rs:79-105 | For even sizes every write is in bounds and no two iterations write the same index |
| `PlaneLayout.OverlapFreeExactlyWhenEven` | rustdesk-screencapture/src/lib.rs:101-105 | For a non-empty image the three planes are free of overlap if and only if width and height are both even |
| `PlaneLayout.WritesFitExactly` | rustdesk-screencapture/src/lib.rs:101-105 | All writes fall inside the buffer if and only if the height is even, or the width is 2, or both are odd and the image is higher than wide, or it is empty |
| `ColorConversion.BgraToI420` | rustdesk-screencapture/src/lib.rs:78-108 | For any size: panics exactly when the chroma does not fit; otherwise leaves what the scheduled writes leave in the resized buffer, which for even sizes is the I420 image whatever the buffer held and however long it was |
| `ColorConversion.Encoder.PrepareFrame` | rustdesk-screencapture/src/lib.rs:229-258 | A frame that is too short changes nothing; a size that does not fit panics; otherwise the reused buffer holds what the writes of this frame leave in it, for even sizes its own I420 image whatever frames came before, and the clock advances by 33 |
| `ColorConversion.Resize` | rustdesk-screencapture/src/lib.rs:80 | Resizing keeps what was there and fills with zeros, whether the buffer grows or shrinks |
| `ColorConversion.WriteBlock` | rustdesk-screencapture/src/lib.rs:95-105 | Both chroma bytes of a block go to their sites, or the write to Cr is outside the buffer |
| `ColorConversion.LastWriteStands` | rustdesk-screencapture/src/lib.rs:78-108 | After any sequence of writes an index holds the value of the last write to it, and one never written keeps what the buffer held |
| `ColorConversion.ScheduleMakesI420` | rustdesk-screencapture/src/lib.rs:82-107 | For even sizes the scheduled writes leave the I420 image over any previous contents |
| `PlaneLayout.ScheduleIsComplete` | rustdesk-screencapture/src/lib.rs:82-94 | The schedule of the two loop nests visits exactly the sites of the image, odd sizes rounded up |
| `ColorConversion.LumaPass` | rustdesk-screencapture/src/lib.rs:82-91 | For any size the first loop nest performs the scheduled Y writes in order, all inside the buffer |
| `ColorConversion.ChromaPass` | rustdesk-screencapture/src/lib.rs:93-107 | For any size the second loop nest performs the scheduled chroma writes in order, or stops at a write outside the buffer, which it names |
| `ColorConversion.I420PlanesToBgra` | rustdesk-screencapture/src/lib.rs:111-138 | For any size and strides whose planes reach far enough, every read and write is in bounds and every byte of the output is the decoded channel of its pixel |
| `ColorConversion.I420At` | rustdesk-screencapture/src/lib.rs:82-107 | The encoded image holds at every site the value that site computes from the source image |
| `ColorConversion.EncodesPixelsByTheStandard` | rustdesk-screencapture/src/lib.rs:84-89 | The bytes of a pixel are read as blue, green, red and alpha, and the byte of the first plane at its place is its luma by the standard |
| `ColorConversion.EncodesBlocksByTheStandard` | rustdesk-screencapture/src/lib.rs:95-105 | The bytes of the second and third plane at the place of a block are Cb and Cr by the standard of its top-left pixel |
| `ColorConversion.DecodesToBgra` | rustdesk-screencapture/src/lib.rs:124-135 | A decoded pixel is written as blue, green, red and 255, each the clamped inverse at the place its planes and strides give |
| `ColorConversion.RoundTripAt` | rustdesk-screencapture/src/lib.rs:82-137 | Decoding the packed planes of an encoded image gives at each pixel the inverse of its own luma and the chroma of the top-left pixel of its block |
| `ColorConversion.BlockImagesSurvive` | rustdesk-screencapture/src/lib.rs:82-137 | Every even-sized image constant on 2x2 blocks comes back with red and green within 2, blue at most 2 below and 3 above, and alpha 255 |
| `ColorConversion.GreyImagesSurvive` | rustdesk-screencapture/src/lib.rs:82-137 | Every even-sized grey image comes back within 1 in every channel, with no condition on blocks |
| `VideoEnvelope.RelayFindsTarget` | server/router.go:224-237 | The relay reads back the target the client wrote if and only if its length plus 8 does not wrap in uint32 and the uint32 image of the frame length covers it |
| `VideoEnvelope.TargetExactly` | server/router.go:224-235 | On any frame the relay reads a target if and only if the magic is there, the announced length is that of the target, and the target follows in full |
| `VideoEnvelope.WireFormat` | client/lib/screens/remote_support_page.dart:6177-6192 | Byte by byte: every field of one frame at its place, little-endian |
| `VideoEnvelope.OpensExactly` | client/lib/screens/remote_support_page.dart:6198-6217 | The receiving client opens exactly the frames that hold both announced strings, flags and size, and at least one byte of packet |
| `VideoEnvelope.OutOfRangeExactly` | server/router.go:231-235 | A frame makes the slice expression panic exactly when its announced length wraps past the header and its own length covers the wrapped bound |
| `VideoEnvelope.HeaderOnlyFrameIsOutOfRange` | server/router.go:224-235 | Eight bytes are enough: the magic, any version, and a length of all ones |
| `VideoEnvelope.OpenInvertsBuild` | client/lib/screens/remote_support_page.dart:6165-6217 | The receiving client gets back the packet, and the dimensions modulo 2^16, from the envelope the sending client built |
| `Hub.RefinesPairs` | server/internal/ws/hub.go:25-45 | The nested maps behave as one set of (user, connection) pairs and never keep an empty inner map |
| `Hub.HasConnectionsIsExact` | server/internal/ws/hub.go:79-84 | A user has connections if and only if some pair exists, and no entry outlives its last pair |
| `Outboxes.OfferAccounts` | server/router.go:261-271 | Offering a frame keeps the account of all frames and the order; it is appended if fewer than 256 wait, and dropped exactly when 256 do |
| `Outboxes.PopAccounts` | server/router.go:203-213 | A turn of the write loop, failing or not, keeps the account and the order of what was accepted |
| `Outboxes.DrainWritesAll` | server/router.go:203-213 | A write loop whose writes succeed writes everything that waits, in order |
| `Outboxes.SplitsWithoutFailure` | server/router.go:203-213 | Written, queued and dropped make up all offered frames if and only if no write has failed |
| `Outboxes.SubsequencePositions` | server/router.go:261-271 | What a subsequence means: the accepted frames stand among the offered ones at strictly increasing positions |
| `Sessions.StoredSessionIsTheUnion` | server/router.go:157-201 | For agreeing messages the stored session exists, and has its host and its viewer filled in, exactly when some message said so |
| `Sessions.OrderAndRepetitionDoNotMatter` | server/router.go:157-201 | Two message sequences with the same set of agreeing messages store the same session, registers and connection requests alike |
| `Sessions.LastWordCounts` | server/router.go:157-201 | For any messages, agreeing or not, each end of a stored session is what the last message that named it said, peers named by the other side included |
| `Sessions.FieldsAreRead` | server/router.go:158-173 | A register message is read in its payload, or in its data without one, the session under both spellings, and anything but a string counts as absent |
| `Sessions.FilledFieldsStayFilled` | server/sessions.go:20-37 | No message, contradictory ones included, removes a session or empties a filled field |
| `Relay.MembershipInvariant` | server/router.go:70-93 | In every run a registry entry is an open connection of that ID, and the hub is exactly the set of open authenticated connections |
| `Relay.NothingLeftBehind` | server/router.go:84-93 | Once every connection has run its deferred close, registry and hub are empty |
| `Relay.ReachableExactlyWhenAddedLast` | server/clients.go:24-41 | In every run an entry is the client added last under its ID, and a client stays reachable exactly until another of that ID is added or ends |
| `Relay.SharedIDLosesTheSurvivor` | server/router.go:84-85 | Of two connections under one ID, the end of either leaves the other open and unreachable |
| `Relay.SecondWindowBecomesUnreachable` | server/router.go:70-85 | Two connections under one ID and the end of the first: the second is open and unreachable |
| `Relay.EveryDeliveryIsAccountedFor` | server/router.go:203-271 | Over every interleaving, the frames offered to a connection are, in order, exactly those sent to an ID under which it was last added; they split into written, queued, dropped and at most one failed; order is kept and at most 256 wait |
| `Relay.BuiltFramesAreAddressed` | server/router.go:224-236 | A binary frame that a client builds for an ID is addressed to that very ID, and goes on unchanged |
| `Relay.IDsAreReadByteByByte` | server/router.go:235 | The bytes of a target name an ID if and only if they are its bytes, in number and order |
| `Relay.ClientIDPrecedence` | server/router.go:52-58 | The client ID is the first that is given of the query client ID, the query user ID and the subject of the token |
| `Relay.FramesAreLostExactly` | server/router.go:203-213 | In every run, written, queued and dropped make up all frames sent to a connection if and only if no write failed while its write loop was running with a frame waiting |
| `Relay.FailedExactly` | server/router.go:209-211 | In every run, a frame of a connection failed if and only if some write of its running loop did |
| `Relay.FailedWriteLosesAFrame` | server/router.go:203-213 | A client that sends itself one frame and breaks before the write: the frame is neither written nor queued nor dropped |
| `Relay.FramesAreAccountedFor` | server/router.go:203-213 | Every step keeps the account of every connection, open or closed |
| `Relay.RelayPreservesKind` | server/router.go:95-124 | The kind the write loop infers from the first two bytes is the kind the frame was received as (section 5.6 of RFC 6455), because no JSON text starts with 0xB1 |
| `Relay.SessionsConverge` | server/router.go:157-201 | Two runs whose readers brought the same set of agreeing messages about a session store the same session, whatever else happened |
| `Relay.SessionsFollowMessages` | server/router.go:113-117 | In every run the session registry is what the registration messages alone make of it, whatever else happened |
| `Relay.SessionsNeverForget` | server/router.go:175-190 | Once a session is stored, no later traffic removes it or empties an end that was known |
| `Router.Router.HandleWS` | server/router.go:52-77 | Refused exactly without any of the three IDs; otherwise one new client object, shared by the registry and its reader and writer, is entered under the first of them, and in the hub only when authenticated |
| `Router.Router.Add` | server/clients.go:24-28 | The new client takes the place of whatever stood under its ID; no other client changes |
| `Router.Router.Remove` | server/clients.go:30-34 | Whatever stands under the ID is removed, even another client, and the channel of this one is closed |
| `Router.Client.Send` | server/router.go:266-270 | The non-blocking send on the shared client appends to its queue, or drops the frame if 256 wait |
| `Router.Router.HandleRegister` | server/router.go:157-201 | A new session gets client and peer on the sides the role names; in a stored one only the side of the client is overwritten, and the other only by a peer that is named; without session ID nothing changes |
| `Router.Router.HandleConnectionRequest` | server/router.go:239-244 | The session is replaced only when all three fields are there; the request is forwarded in any case |
| `Router.Router.HandleEnvelope` | server/router.go:113-124 | Each message type has its own effect on sessions and queues, and an unknown type none |
| `Router.Router.ReadFrame` | server/router.go:95-124 | A binary frame goes to the ID its envelope announces or ends the reader, a text frame is handled only if it decodes |
| `Router.Router.CloseReader` | server/router.go:84-93 | The clean-up clears whatever stands under the client ID and the one pair in the hub |
| `Router.Router.ForwardTo` | server/router.go:261-271 | The frame joins the end of the queue of the client registered under the ID, is dropped if 256 wait, and no other queue changes; without such a client it is lost |
| `Router.Router.WriteNext` | server/router.go:203-213 | The oldest frame leaves the queue and goes out as the kind it came as; a failed write ends the loop |
| `Friendships.OneRowPerPair` | server/migrations/004_social_messages.up.sql:9-14 | Every reachable table has at most one row per unordered pair, live or deleted, and no row from a user to themselves |
| `Friendships.FriendIDsAreTheFriends` | server/internal/repository/friends.go:174-184 | On a table with one row per pair, the friend list has no duplicates and holds exactly the users the existence query calls friends |
| `Friendships.MutualCountIsIntersection` | server/internal/repository/messages.go:271-288 | On every reachable table the join counts each mutual friend once: it equals the size of the intersection of the two friend sets, and is symmetric |
| `Friendships.FriendshipsAreAnswered` | server/internal/repository/friends.go:57-131 | In every run from the empty table a row is a friendship if and only if its requester opened it, its addressee answered it after that by accepting or crossing, and since then nothing deleted the pair or ended the friendship |
| `Friendships.LiveExactlySinceOpened` | server/internal/repository/friends.go:63-131 | In every run a row is live in one direction if and only if that user opened it and nobody deleted the pair since |
| `Friendships.ReachableExactly` | server/migrations/004_social_messages.up.sql:9-14 | The tables that some run from the empty one reaches are exactly those with one row per pair and no self-row |
| `Friendships.PendingWasRequested` | server/internal/repository/friends.go:109-131 | In every run a live pending row goes back to a request its requester sent and that nothing has settled since |
| `Friendships.PendingExactlySinceAsked` | server/internal/repository/friends.go:63-131 | In every run a row is pending in one direction if and only if that user asked on it and since then no answer, crossing request, block or deletion settled it |
| `Friendships.RequestedExactlyWhenPending` | server/internal/repository/friends.go:83-131 | For a live row of any reachable table: every run that leads to the table contains the request of its requester if and only if the row is pending |
| `Friendships.AcceptIsSafeExactlyOnPending` | server/internal/handlers/friends_handler.go:97-115 | Accepting a live row makes a friendship that is sure to go back to a request, whatever run led there, if and only if the row is pending: the check the handler leaves out |
| `Friendships.AcceptedWithoutRequest` | server/internal/handlers/friends_handler.go:102-115 | A block followed by an accept makes two users friends although no request was ever sent |
| `Friendships.BlockedCanAcceptExactly` | server/internal/handlers/friends_handler.go:97-115 | After a block that left the pair no friends, the blocked user can make it a friendship in one step if and only if they had no live row of their own towards the blocker |
| `Friendships.GuardedFriendshipsWereRequested` | server/internal/handlers/friends_handler.go:97-115 | If accepts are only made on pending rows, every live pending or accepted row goes back to a request its requester sent |
| `Friendships.FriendshipTakesTwo` | server/internal/handlers/friends_handler.go:41-169 | From any table with one row per pair on which nothing live comes from a user and they are no friends: in any run in which that user takes no step, nobody becomes their friend by any mixture of requests, blocks, resolves and deletes |
| `Friendships.StrangersStayStrangers` | server/internal/handlers/friends_handler.go:41-169 | In any run from the empty table in which a user takes no step, nobody becomes their friend |
| `Friendships.BlockEndsExactly` | server/internal/repository/friends.go:63-131 | A live block ends in exactly these ways: its maker sends again, its addressee accepts it, or either side deletes it |
| `Friendships.FriendshipEndsExactly` | server/internal/repository/friends.go:114-118 | A friendship ends exactly when its requester sends or blocks again, its addressee rejects it, or either side deletes it |
| `Friendships.BlockWorksExactly` | server/internal/handlers/friends_handler.go:157-162 | A block leaves the pair blocked if and only if it is not aimed at oneself or at a friend who was the requester |
| `Friendships.FriendCannotBeBlocked` | server/internal/handlers/friends_handler.go:157-162 | After a request and the crossing one, a block by the second user fails and the two stay friends |
| `FriendsHandler.Handler.ResolveFriendRequestPair` | server/internal/repository/friends.go:57-107 | A deleted row is revived in the new direction, an accepted or blocked one refuses, a crossing pending one is accepted, any other stays |
| `FriendsHandler.Handler.CreateFriendRequest` | server/internal/repository/friends.go:109-131 | No row of the pair: a pending one is added. The own earlier row becomes pending and live whatever it was. A row of the other direction is resolved instead |
| `FriendsHandler.Handler.SendFriendRequest` | server/internal/handlers/friends_handler.go:52-77 | Refused exactly for oneself and for somebody whose own live request was answered, and then nothing changes; otherwise 200 means the two are friends now and 201 that they are not; one row per pair is kept |
| `FriendsHandler.Handler.ResolveFriendRequest` | server/internal/handlers/friends_handler.go:97-124 | It succeeds exactly for the addressee of a live row with one of the two actions, takes the specified step then, and changes nothing otherwise |
| `FriendsHandler.Handler.BlockUser` | server/internal/handlers/friends_handler.go:157-168 | Fails exactly when a request would be refused, and then changes nothing; success means the two are not friends; one row per pair is kept |
| `FriendsHandler.RefusedExactly` | server/internal/repository/friends.go:83-111 | A request is refused if and only if it is aimed at oneself or at somebody whose own live request to the sender was accepted or blocked |
| `FriendsHandler.Handler.DeleteFriend` | server/internal/repository/friends.go:164-172 | Afterwards the two are not friends, whoever the requester was |
| `Pagination.PageIsTopOfTheRest` | server/internal/repository/messages.go:34-58 | A page holds the greatest rows below the cursor up to the limit; more are announced exactly when more exist; the next cursor is the last row and never the nil UUID |
| `Pagination.WholeListing` | server/internal/repository/messages.go:174-204 | On a table that stands still, with any limit per page, the walk ends and the pages concatenate to all rows in descending order |
| `Pagination.FixedTableWalk` | server/internal/repository/messages.go:221-251 | From any cursor, the pages of a finished walk concatenate to exactly the rows below it, and a fetch more than there are rows always finishes |
| `Pagination.ChangingTableNoDuplicates` | server/internal/repository/repository.go:25-34 | With rows inserted and deleted between pages, what the walk returns strictly descends, so no row comes twice, and every returned row was there at some page |
| `Pagination.ChangingTableNoGap` | server/internal/repository/messages.go:236-250 | With rows inserted and deleted between pages, a finished walk returns every row that was there throughout |
| `Pagination.ConversationIsShared` | server/internal/repository/messages.go:41-46 | Both users of a conversation page through the same rows |
| `Pagination.ConversationIsExact` | server/internal/repository/messages.go:42-43 | A conversation lists an ID if and only if some message with it goes from one of the two users to the other |
| `Pagination.ConversationsArePrivate` | server/internal/repository/messages.go:42-43 | With distinct IDs every message is in the conversation of its own two users and in no other |
| `Pagination.WholeConversation` | server/internal/repository/messages.go:26-59 | The walk through a conversation lists every message between the two users once, newest ID first, and no other |
| `Pagination.OwnedByIsExact` | server/internal/repository/messages.go:189-192 | The listing of a community or of a user holds exactly its own rows |
| `Pagination.PageSize` | server/internal/repository/messages.go:27-29 | A page has as many rows as there are, up to the limit; a limit below 1 or above 50 counts as 50 |
| `Pagination.OnlyMalformedCursorsAreRefused` | server/internal/repository/repository.go:25-34 | A cursor that is blank or a UUID is accepted, and no other |
| `Migrations.FilesAreTheMigrations` | server/migrations_runner.go:38-48 | The collected files are exactly the plain entries whose names end in `.up.sql`, without repetition, in byte order |
| `Migrations.LeqIsByteOrder` | server/migrations_runner.go:48 | One name stands before another if and only if it is a prefix of it or has the smaller byte where they first differ |
| `Migrations.OrderDependsOnTheSet` | server/migrations_runner.go:48 | The order of execution depends only on which files exist, not on the order of the directory listing |
| `Migrations.ApplyRunsPrefix` | server/migrations_runner.go:68-85 | A run executes the unrecorded files in order up to the first failure, records those that went through, and succeeds exactly when all do |
| `Migrations.InterruptedRunsAddUp` | server/migrations_runner.go:68-87 | After any failed runs and a successful one, each pending file has been executed once and in order if and only if no run failed between executing and recording; each such failure costs one repeated execution |
| `Migrations.LostRecordRunsTwice` | server/migrations_runner.go:79-84 | One file whose record fails the first time is executed twice |
| `Migrations.SecondRunIsIdle` | server/migrations_runner.go:50-72 | After a success every file is recorded, and another run executes nothing |
| `MigrationRunner.Runner.CollectFiles` | server/migrations_runner.go:38-48 | The loop over the directory entries and the sort give the names ending in `.up.sql` in byte order, directories left out |
| `MigrationRunner.Runner.RunMigrations` | server/migrations_runner.go:50-87 | Executes the unrecorded files in order up to the first failed read, execution or record, records what went through, and on success every migration is recorded |
| `Lockout.BruteForceIsBounded` | server/internal/handlers/auth_handler.go:256-270 | In every sequential run on one account at most ten failures are ever counted, the account is banned exactly when the tenth is, and at least 75 minutes lie between the fifth and the tenth |
| `Lockout.AnswersExactly` | server/internal/handlers/auth_handler.go:256-270 | What an attempt is told, from the counted failures alone: banned from the tenth on, locked for fifteen minutes after the latest from the fifth on and no longer, and otherwise as the password decides |
| `Lockout.BoundIsAttained` | server/internal/handlers/auth_handler.go:806-828 | Ten wrong passwords at the earliest instants that count end in the ban with exactly 75 minutes between the fifth and the tenth |
| `Lockout.RunInvariant` | server/internal/handlers/auth_handler.go:806-828 | From the fifth counted failure on, each is at least one lock after the one before |
| `Lockout.SuccessForgivesNothing` | server/internal/repository/security.go:11-32 | Right passwords, wherever they fall in the run, leave count, lock and ban as if they had not been tried |
| `Lockout.User.HandleFailedLogin` | server/internal/handlers/auth_handler.go:806-828 | The count grows by one; the tenth failure bans and does not lock, the fifth to ninth lock for 15 minutes from their own handling |
| `Lockout.User.TryLogin` | server/internal/handlers/auth_handler.go:256-270 | A ban refuses before a lock, a lock before the password, and neither refusal is counted |
| `CommunityRoles.OwnerIsLostExactly` | server/internal/handlers/communities_handler.go:499-742 | An active owner loses role or membership exactly by joining the own public community again, by being approved into it, by being added directly under another valid role, or by a ban from staff while no ban record of theirs exists |
| `CommunityRoles.OwnersExactly` | server/internal/handlers/communities_handler.go:259-351 | Over any run somebody is an owner at the end if and only if they were made one at some step, or were one at the start, and none of the four losses happened since |
| `CommunityRoles.OwnersSurviveUpdatesAndRemovals` | server/internal/handlers/utils.go:103-127 | Over any run of member updates, removals and unbans an active owner stays one |
| `CommunityRoles.OnlyOwnersRaise` | server/internal/handlers/communities_handler.go:931-952 | Somebody rises above tech without an owner acting if and only if staff below owner adds them directly under a senior role |
| `CommunityRoles.RaisedExactly` | server/internal/handlers/utils.go:112-127 | A step lifts somebody above tech if and only if it is an update to a senior role by an owner of another active member, or a direct addition under a senior role by anybody on the staff |
| `CommunityRoles.StaffMakesOwner` | server/internal/handlers/communities_handler.go:931-952 | An admin_sec can make anybody, themselves included, an owner |
| `CommunityRoles.OwnerLostToStaff` | server/internal/handlers/communities_handler.go:931-952 | An admin_sec can take the only owner out of office in one request |
| `CommunityRoles.SecondBanChangesNothing` | server/migrations/006_production_additions.up.sql:149-158 | A banned owner who joined again and was restored cannot be banned again: the old record makes the second ban fail |
| `CommunityRoles.SeniorsWereRaised` | server/internal/handlers/communities_handler.go:259-351 | Over any run of all seven kinds of steps, whoever is senior at the end was so at the start or was lifted at some step in one of the two exact ways |
| `CommunityRoles.SeniorsOnlyShrinkWithoutOwners` | server/internal/handlers/communities_handler.go:293-306 | Over any run in which no owner acts and nobody is added directly under a senior role, nobody comes to rank above tech |
| `CommunityRoles.UpdatesKeepDistance` | server/internal/handlers/communities_handler.go:293-306 | A permitted update never targets its actor, and leaves an actor who is not an owner strictly above the target |
| `CommunityRoles.RemovesExactly` | server/internal/handlers/utils.go:103-114 | Of two active members one can remove the other if and only if standing higher in the order viewer, user, tech, admin_sec, admin, owner |
| `CommunityRoles.PromotesExactly` | server/internal/handlers/utils.go:112-127 | Of two active members one can give the other a new role if and only if standing higher, and then an owner any, an admin or admin_sec one up to tech, and nobody else any |
| `CommunityRoles.EqualsAndJuniorsAreHarmless` | server/internal/handlers/communities_handler.go:259-351 | Over any run of updates and removals by members who then stand no higher, a member keeps role and membership |
| `CommunityRoles.OutsidersChangeNothing` | server/internal/repository/communities.go:91-104 | Whoever is no active member can do nothing but join |
| `CommunityRoles.BansChangeExactly` | server/internal/repository/communities.go:347-361 | Ban records come from bans by staff and go with unbans by staff, and with nothing else |
| `CommunityRoles.OthersAreUntouched` | server/internal/repository/communities.go:145-175 | A step changes at most the row of its target, or of whoever joins |
| `CommunityRoles.Community.UpdateCommunityMember` | server/internal/repository/communities.go:145-157 | Succeeds exactly for a member who outranks the target, may promote to the role, and names a role of the schema, none at all, or a target without a row; rows of former members are changed too; the actor stays above unless an owner |
| `CommunityRoles.Community.RemoveCommunityMember` | server/internal/handlers/communities_handler.go:331-350 | It succeeds exactly for a higher rank, and the target is no member then |
| `CommunityRoles.Community.JoinByCode` | server/internal/handlers/communities_handler.go:632-639 | Joining a public community makes the caller an active user whatever role they held |
| `CommunityRoles.Community.ReviewJoinRequest` | server/internal/handlers/communities_handler.go:710-742 | Only staff review; an approval makes the requester an active user whatever they were before |
| `CommunityRoles.Community.BanCommunityMember` | server/internal/handlers/communities_handler.go:515-545 | Succeeds exactly for staff and a target without a ban record; then the target is recorded and no member, whatever its rank; otherwise nothing changes |
| `CommunityRoles.Community.UnbanCommunityMember` | server/internal/handlers/communities_handler.go:564-574 | Staff delete the ban record, and nothing else changes |
| `CommunityRoles.Community.AddCommunityMember` | server/internal/repository/communities.go:167-175 | The upsert overwrites role and membership for any role of the schema, and fails for others |
| `CommunityRoles.Community.AddCommunityMemberDirect` | server/internal/handlers/communities_handler.go:931-958 | Succeeds exactly for staff and a role that is blank or of the schema; the target then holds it, or "user" for a blank one, and nobody else is touched |
| `Totp.VerifyTOTPCode` | server/internal/auth/totp.go:36-52 | A code is accepted exactly when, trimmed of Unicode white space, it is one of the 2 * window + 1 codes around the current step and the secret decodes |
| `Totp.FreshCodesVerify` | server/internal/auth/totp.go:45-50 | A code verifies at every instant within `window` periods of its own (section 5.2 of RFC 6238), with any white space around it, on both sides of the epoch |
| `Texts.TrimRemovesPadding` | server/internal/auth/totp.go:37 | Trimming removes exactly the white space around a core that neither starts nor ends with any |
| `Texts.TrimOfSpace` | server/internal/auth/totp.go:37 | A string of white space trims to nothing |
| `Texts.WhatSpaceIs` | server/internal/auth/totp.go:37 | Blanks, tabs, line ends and the no-break space are white space, and no printable ASCII character is |
| `Totp.StepsStayClose` | server/internal/auth/totp.go:45 | Instants within `window` periods have steps within `window`, truncation toward zero and negative times included |
| `Totp.StepsAreThirtySeconds` | server/internal/auth/totp.go:45 | A step is thirty seconds from its multiple of thirty on; before the epoch the division rounds toward it |
| `Totp.SecretsMayBePadded` | server/internal/auth/totp.go:41 | White space around a stored secret does not matter |
| `Totp.RfcValue` | server/internal/auth/totp.go:67-75 | The first test value of appendix D of RFC 4226 truncates to 1284755224 and gives 755224 |
| `Totp.SixDigits` | server/internal/auth/totp.go:75 | The digits stand most significant first, with leading zeros |
| `Totp.ExpiredCodesNeedACollision` | server/internal/auth/totp.go:45-50 | One period later it verifies if and only if another step of the window happens to have the same code |
| `Totp.TruncateMasksTheFirstByte` | server/internal/auth/totp.go:72-74 | Dynamic truncation stays inside the 20-byte hash and equals the big-endian word with only the first byte masked (sections 5.3 and 5.4 of RFC 4226) |
| `Totp.CodesAreSixDigits` | server/internal/auth/totp.go:67-75 | Every code is exactly six decimal digits that read back as the truncated value modulo a million |
| `Totp.MessagesAreDistinct` | server/internal/auth/totp.go:68-69 | Different 64-bit counters, negative ones included, are different 8-byte messages to the MAC |

## Left out

- libvpx, raw memory access, null checks and image wrapping in the codec library.
- ColorConversion.Encoder.PrepareFrame: a panic is an outcome of the call; what it does to the process is
  not modelled.
- The user interface, HTTP plumbing, e-mail, push messages, GeoIP, file storage and configuration.
- bcrypt, AES-GCM, HKDF, JWT and random code generation.
- The SQL engine: tables are sequences or maps with the constraints of the schema.
- Interleavings inside a handler: the lookup and the send of `forwardTo`, the read and the write of
  `handleRegister`, and the statements of a friend handler are not separated.
- Router.Router.HandleWS: the HTTP upgrade is not modelled; a connection is a number.
- Presence broadcasts and the online flag: every disconnect writes offline whatever other connections
  of the user remain, so "online if and only if connected" is not what the code keeps.
- `SessionRegistry.Delete` and `FindPeer`, which the relay does not call.
- Totp.VerifyTOTPCode: strings are sequences of characters, so malformed UTF-8 is not represented. The
  overflow of `-window` for the least machine integer is not modelled.
- Pagination.WholeListing: listings ordered by `created_at` but cut by an ID cursor are not covered;
  the theorem would need the two orders to agree.
- Pagination.ConversationIsShared: the other columns of a message, and the parsing of a UUID, which is
  reduced to blank, malformed or an ID.
- CommunityRoles.Community.UpdateCommunityMember: departments are left out.
- CommunityRoles.Community.BanCommunityMember: reason and expiry of a ban are left out; no step reads
  them.
- Lockout.BruteForceIsBounded: failures of the second factor are not in these runs, because they skip
  the lock check; neither are unbans and password resets. What follows a right password (unverified
  e-mail, second factor, session) changes none of the modelled fields and is one outcome.
- MigrationRunner.Runner.RunMigrations: the content of a migration is not modelled, only that it was
  executed; the failures before the files are read are one flag.
- Audit logs, announcements, departments, subscriptions, admin listings and single-field updates: only
  easy claims.
