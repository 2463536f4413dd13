# Verified model of the task service

A Dafny 4.11 model of the task-tracking service's stateful parts: the sliding-window login limiter, the response
cache and the cache-aside protocol of its handlers, the comment store, the event pipeline, and user search by mask.
`dafny verify dfyconfig.toml` checks all of it.

| File | Contents |
|---|---|
| `MachineInts.dfy`, `Results.dfy` | integer widths, the unit of time, outcomes of operations that may throw |
| `GrantLog.dfy` | logs of grant instants: pruning, counting in intervals, spacing |
| `SlidingWindow.dfy` | runs of limiter calls: pruned queues against the full grant log |
| `LimiterReports.dfy`, `GreedyOptimality.dfy` | what a report promises; no rival admission policy does better |
| `SlidingWindowLimiter.dfy`, `LoginHandler.dfy` | the limiter object and the login endpoint behind it |
| `Decimal.dfy`, `CacheKeys.dfy` | `to_string`, `stoi`, and what is cached under which keys |
| `CacheModel.dfy`, `CacheManager.dfy` | lazy against eager expiry, the prefix sweep, the cache object |
| `CommentModel.dfy`, `CommentCollection.dfy`, `MongoStorage.dfy` | comments, their BSON documents, the collection |
| `ServiceModel.dfy`, `ServiceHistory.dfy` | a cache-free service, and what its requests leave behind |
| `HeldListings.dfy`, `TaskService.dfy` | what caching does to the answers, and the cached handlers run one at a time |
| `CacheAside.dfy`, `CacheAsideWrites.dfy`, `CacheAsideResponses.dfy` | the handlers interleaved: entries, writes, responses |
| `CacheAsideRace.dfy`, `CacheAsideProgress.dfy`, `CacheAsideCache.dfy` | the race they leave, that none blocks, and their use of the cache object |
| `LikeSearch.dfy`, `UserSearch.dfy` | LIKE patterns against substring search |
| `Events.dfy`, `EventPipeline.dfy`, `LaneOrder.dfy` | envelopes, producer and consumer, and when order survives |
| `Delivery.dfy`, `LaneDelivery.dfy` | redelivery on one lane and on all of them |

## How the model is set up

* Objects the service updates in place are classes. The clock, the network, ids assigned by a database and the success
  of an insert or a send come in as parameters; a clock is only ever assumed not to run backwards.
* The limiter carries a ghost history of its calls, and `Valid` says its queues are what that history leaves. Every
  result about runs of calls therefore holds of the object. `TryAcquire` reads the clock twice, and the two reads are
  separate parameters. `max_requests_` is converted to a 64-bit unsigned size as the code does, so a negative limit
  becomes a huge one.
* A rendered response is an unknown but fixed function of the rows it is rendered from.
* In `CacheAside` a run is a sequence of states and events over any number of readers and writers; a handler may stop
  after any step, which covers handlers that throw and an insert that took effect although its caller saw an error.
  Comments are read from the primary. Projects may be read from a replica, that is from an earlier state of the same
  store; its lag is a parameter of the staleness bound. Positions inside cache entries and handlers (`snapshot`,
  `readAt`, `setAt`, `begunAt`) are bookkeeping the service does not have, and no step depends on them;
  `CacheRefines` shows that without them the cache is what the calls of the cache object lead to.
* A comment collection is any sequence of documents, readable or not, and `find` returns them in the order of that
  sequence, new ones at the end; the service asks for no order, so this one is assumed. A filter matches a value or an
  array that holds it. That a missing `replies` is an exception when it is iterated is how the BSON library reads it;
  the collection's validator does not require the field (`mongodb/validation.js:71-79`).
* In `TaskService` a request carries what the outside answers, clock reads and the lag of the replica included. The
  service starts with an empty cache on any stores. `HeldListings` says which rows are held for which listing and until
  when, without keys, texts or sweeps, and the handlers are proved against it.
* A login is `Begin` and `Finish`, with any other calls in between.
* A lane is one partition of one topic. The producer fills one log for each lane, the consumer is fed any interleaving
  of the lanes, and the partitioner is any function of topic and key. The log of `Delivery` is one lane; in
  `LaneDelivery` every lane has passes of its own. A restart resumes a lane at an offset not past the first message
  nobody reached.
* LIKE follows section 9.7.1 of the PostgreSQL 14 documentation. Case folding is any character map that leaves `%`,
  `_` and the backslash alone and maps nothing else to them.

## Where a stated property fails, and exactly when it holds

* A report's remaining count is exact if and only if the limit is zero, or positive with a window that is not negative
  (`ReportExactIff`).
* The search by pattern agrees on every value with `MatchesMask`, the case-sensitive substring search it replaced, if
  and only if the mask has no `%`, `_` or backslash and no letter with two cases (`LikeIsMatchesMaskIff`): masks are not
  escaped and ILIKE folds case, so `ann` finds `ANN` (`AnnFindsAnotherCase`). With a case-folded substring search it
  agrees if and only if the mask has no special character (`LikeIsSubstringIffPlain`).
* No hit of the case-folded search is lost if and only if the mask is found by its own pattern
  (`NoFoldedHitLostIffFindsItself`). It is when every escape starts a segment between percent signs
  (`LeadingEscapesLoseNoneFolded`), it is not when the mask ends in an unescaped backslash (`DanglingLosesHits`), and a
  backslash between two letters loses hits too (`InnerBackslashLosesHits`).
* For such masks the query returns what the in-memory search finds, less the deleted users, if and only if these are at
  most 100 (`LoginSearchesAgreeIff`, `NameSearchesAgreeIff`); otherwise it returns some 100 of them.
* Run one request at a time, the cached service answers like one without a cache if and only if every hit is of a store
  that can be reached and, for projects, holds as many as the replica has seen (`TransparentIff`,
  `TransparentForEveryTextIff`; the first for a text that tells listings of different lengths apart, the second over
  all texts). A replica that catches up after a read is noticed (`HitFromLaggingReplica`). When the replicas keep up the
  only exception is a read that hits although its store cannot be reached (`TransparentIffReachable`,
  `HitWithoutStore`).
* No rival admits more than the limiter within windows stretched by the time between the two clock reads of a call
  (`GreedyOptimal`); with windows one nanosecond shorter some rival does (`StretchIsTight`).
* With a negative window the queue can hold one stamp, the one just granted, that lies before the cutoff
  (`QueueRefinesLog`).
* Records are stored in the order of publication, however the broker interleaves its lanes, if and only if everything
  sent went through one lane (`OrderKeptIff`). A login and a project created after it may reach the consumer the other
  way round (`OrderBetweenTopicsNotKept`).
* A response does not show a write that was completed before the request began if and only if the span from the
  snapshot to the `Set` of the entry it was served from encloses that write's commit and invalidation
  (`LacksCompletedWriteIffStraddled`). `RaceIsReal` is such a run, and it attains the staleness bound.
* A well-formed message is stored if and only if some pass that reached it had its insert accepted
  (`StoredIffAccepted`). A failed insert is swallowed and the offset still moves on, so delivery is at-least-once only
  while inserts succeed (`SwallowedInsertLosesMessage`). It is stored once for each such pass (`StoredCount`), so
  exactly once only when there is one, and a restart can store it twice (`RestartStoresTwice`).

## Where the code and its documents disagree

The model follows the code.

* The login limit is 5 per 60 seconds (`src/handlers/auth_handlers.cpp:19`), not 10.
* The reset and retry headers carry the whole window (`src/rate_limit/sliding_window.cpp:44`), not the time left.
* `event_driven_design.md` promises idempotence by a unique index on `event_id`; the database setup creates none.
* The performance design has a reply sweep every comments key; the code sweeps only when the lookup gives no positive
  task id, and otherwise invalidates one key (`src/handlers/comment_handlers.cpp:148-155`).
* Every event goes to the collection `raw_events`, not to one collection per kind.

## Model

| member | source | states |
|---|---|---|
| `GrantLog.SpacedIffWindowBounded` | src/rate_limit/sliding_window.cpp:9-30 | for a sorted log, "stamps limit apart are more than a window apart" and "every closed window holds at most limit stamps" are the same |
| `GrantLog.LongRunBound` | src/rate_limit/sliding_window.cpp:18-30 | a spaced log has at most n * limit stamps in any closed interval of n windows |
| `SlidingWindow.PrunedAlike` | src/rate_limit/sliding_window.cpp:9-16 | at any later cutoff the lazily pruned queue and the full grant log of the run keep the same stamps |
| `SlidingWindow.Conversions` | src/rate_limit/sliding_window.cpp:24-43 | the two conversions keep the limit and the queue length modulo the width of their target |
| `SlidingWindow.QueueRefinesLog` | src/rate_limit/sliding_window.cpp:9-30 | in every run the queue is the tail of the full log at or after the latest cutoff, and for a negative window, where that tail is empty, the stamp just granted if the latest call was a grant |
| `SlidingWindow.QueueBounded` | src/rate_limit/sliding_window.cpp:24-28 | the queue never outgrows the limit |
| `SlidingWindow.Decision` | src/rate_limit/sliding_window.cpp:18-30 | a call is refused exactly when the full log has limit grants at or after its cutoff |
| `SlidingWindow.AcquireEffect` | src/rate_limit/sliding_window.cpp:18-30 | a granted call adds its second clock read to the log of its own key and to no other |
| `SlidingWindow.LogSpaced` | src/rate_limit/sliding_window.cpp:9-30 | the full log of every run is sorted and spaced, although cutoff and stamp are different clock reads |
| `SlidingWindow.WindowSafety` | src/rate_limit/sliding_window.cpp:9-30 | in every run and for every key, no closed window holds more grants than the limit |
| `SlidingWindow.RateBound` | src/rate_limit/sliding_window.cpp:18-30 | in every run n windows hold at most n * limit grants of a key |
| `SlidingWindow.RetryAfterWindow` | src/rate_limit/sliding_window.cpp:18-30 | a retry strictly more than one window after the last grant succeeds |
| `SlidingWindow.OthersLeaveLog` | src/rate_limit/sliding_window.cpp:18-45 | dropping any reports and any traffic on other keys from a run does not change the log of a key |
| `SlidingWindow.OthersInvisible` | src/rate_limit/sliding_window.cpp:18-45 | nor does it change the answer to the key's next acquisition |
| `SlidingWindow.InfoInvisible` | src/rate_limit/sliding_window.cpp:32-45 | a run answers its acquisitions as if no report had been asked for, although reports prune |
| `LimiterReports.ReportedRemaining` | src/rate_limit/sliding_window.cpp:42-44 | for a limit that is not negative the count is the number of free places and the clamp to zero never fires |
| `LimiterReports.ReportCounts` | src/rate_limit/sliding_window.cpp:32-44 | for a limit that is not negative, the count is the limit less the grants of the full log in the window |
| `LimiterReports.SensibleReportExact` | src/rate_limit/sliding_window.cpp:18-45 | after a report of r, further calls at that instant succeed r times and then fail |
| `LimiterReports.ReportExactIff` | src/rate_limit/sliding_window.cpp:18-45 | reports are exact in this sense precisely for a zero limit, or a positive limit with a window that is not negative |
| `GreedyOptimality.NeverBehind` | src/rate_limit/sliding_window.cpp:9-30 | with clock reads at most d apart, the i-th grant never comes later than the i-th grant of any rival policy that respects every window stretched by d; for d = 0, every window |
| `GreedyOptimality.GreedyOptimal` | src/rate_limit/sliding_window.cpp:9-30 | no choice of admitted requests that is legal in this sense admits more than the limiter in any prefix of any run |
| `GreedyOptimality.StretchIsTight` | src/rate_limit/sliding_window.cpp:18-30 | for every d a run in which a rival that respects windows one nanosecond short of the stretched ones admits more |
| `SlidingWindowLimiter.SlidingWindowLimiter.CleanExpired` | src/rate_limit/sliding_window.cpp:9-16 | the loop leaves the pruned queue of its key and every other queue alone |
| `SlidingWindowLimiter.SlidingWindowLimiter.TryAcquire` | src/rate_limit/sliding_window.cpp:18-30 | the object decides by the full log of its whole history and extends only the log of its key |
| `SlidingWindowLimiter.SlidingWindowLimiter.GetInfo` | src/rate_limit/sliding_window.cpp:32-45 | a report changes no log; its reset time is the whole window |
| `LoginHandler.LoginHandler.HandleRequest` | src/handlers/auth_handlers.cpp:100-166 | a login with nothing in between: each answer exactly when it is due -- 429 for five grants in the last sixty seconds, a token with the row's id for a login and a hash that match, 401, 400 and the exceptions -- and a lookup only after a grant |
| `LoginHandler.LoginHandler.Begin` | src/handlers/auth_handlers.cpp:104-144 | the part before the report: the exact condition of every outcome, and a lookup recorded exactly for credentials that were admitted |
| `LoginHandler.LoginHandler.Finish` | src/handlers/auth_handlers.cpp:106-165 | the report after any other calls: five less the grants of the last sixty seconds, sixty as reset and retry times, and no grant spent |
| `LoginHandler.LoginHandler.LookupsBounded` | src/handlers/auth_handlers.cpp:104-131 | any n minutes hold at most 5 * n credential lookups for one address |
| `Decimal.StoiIffSpells` | src/handlers/comment_handlers.cpp:28 | an argument parses to n exactly when it is white space, a sign, zeros, the digits of n and then anything but a digit |
| `Decimal.DecimalNotation` | src/handlers/comment_handlers.cpp:52 | numerals are decimal: a digit behind the numeral of the tens, no zero in front |
| `Decimal.RoundTrip` | src/handlers/comment_handlers.cpp:52 | printing then parsing is the identity on every 32-bit int |
| `CacheKeys.CommentsKeyInjective` | src/handlers/comment_handlers.cpp:52 | two tasks share a comments key exactly when they are the same task |
| `CacheKeys.SpellingsShareKey` | src/handlers/comment_handlers.cpp:72-73 | two path arguments share a key exactly when they parse to the same id |
| `CacheKeys.SweepHitsCommentsOnly` | src/handlers/comment_handlers.cpp:149-153 | every comments key has the swept prefix, negative ids included, and the projects key is none of them |
| `CacheKeys.KeyOfInjective` | src/cache/cache_manager.cpp:47-58 | no two cached listings share a key, and the swept prefix takes exactly the comments |
| `CacheModel.PolicyInvisible` | src/cache/cache_manager.cpp:12-58 | lazy expiry, eager expiry and never erasing give the same answers in every run |
| `CacheModel.SweepIsFold` | src/cache/cache_manager.cpp:47-58 | the sweep equals invalidating the matching keys one by one in any order |
| `CacheManager.CacheManager.Get` | src/cache/cache_manager.cpp:12-28 | a hit up to and including the expiry instant; only an expired entry met is erased |
| `CacheManager.CacheManager.Set` | src/cache/cache_manager.cpp:30-39 | the entry of the key is replaced and expires ttl seconds after the clock read |
| `CacheManager.CacheManager.Invalidate` | src/cache/cache_manager.cpp:41-45 | exactly the entry of the key goes |
| `CacheManager.CacheManager.InvalidateByPrefix` | src/cache/cache_manager.cpp:47-58 | whatever the iteration order, the loop ends having removed exactly the keys with the prefix and touched nothing else |
| `CommentModel.CommentToBson` | src/models/comment.hpp:70-88 | the builder loop yields the document of the comment, without its id |
| `CommentModel.CommentFromBson` | src/models/comment.hpp:53-68 | the reader loop yields the comment of a readable document and throws on any other |
| `CommentModel.ReadsIff` | src/models/comment.hpp:37-68 | a document reads as a comment exactly when it holds every field with its type and value, only the update time being optional |
| `CommentModel.RoundTrip` | src/models/comment.hpp:37-88 | a comment written and read back keeps every field but the id, times truncated to milliseconds |
| `CommentCollection.ParsesIff` | src/storage/mongodb_storage.cpp:43 | an id parses to the lower-case spelling of its 24 hexadecimal digits, and nothing else parses |
| `CommentCollection.LowerParses` | src/storage/mongodb_storage.cpp:43 | the ids that listings show parse to themselves |
| `CommentCollection.ParsesAtAll` | src/storage/mongodb_storage.cpp:61 | what parses are 24 digits of either case |
| `CommentCollection.ParseAlike` | src/storage/mongodb_storage.cpp:61 | two ids parse alike exactly when they agree up to case |
| `CommentCollection.ReadableIff` | src/storage/mongodb_storage.cpp:25-32 | a task can be listed exactly when every document with that task, or with an array that holds it, can be read |
| `CommentCollection.ListedIff` | src/storage/mongodb_storage.cpp:25-32 | a listing holds the comments of the task that documents read as, and no others |
| `CommentCollection.PushedReads` | src/storage/mongodb_storage.cpp:41-52 | a pushed reply ends up last and changes neither the id nor the task of a document, nor what else it reads as but the update time |
| `CommentCollection.TaskOfStable` | src/storage/mongodb_storage.cpp:41-52 | no insert and no reply changes the task of an existing comment |
| `CommentCollection.RepliedElsewhere` | src/storage/mongodb_storage.cpp:41-52 | a reply changes no listing but that of its comment's task, also among documents that cannot be read |
| `CommentCollection.RepliedShows` | src/storage/mongodb_storage.cpp:41-52 | it does change that listing, and leaves it readable |
| `CommentCollection.LookupFinds` | src/storage/mongodb_storage.cpp:59-79 | a lookup that reaches the server gives the task of a stored comment, under any spelling of its id |
| `CommentCollection.ReplyIsListed` | src/storage/mongodb_storage.cpp:21-52 | a comment inserted under an unused id can be looked up and replied to, and the listing of its task shows the reply |
| `CommentCollection.History` | src/storage/mongodb_storage.cpp:21-52 | in any collection and after any run, a comment inserted under an unused id reads back with its fields, its time to less than a millisecond and exactly the replies pushed to it, in commit order, and its task lists it if it can be listed |
| `MongoStorage.MongoStorage.InsertComment` | src/storage/mongodb_storage.cpp:21-23 | an accepted insert appends the comment under the id the driver assigned |
| `MongoStorage.MongoStorage.GetCommentsByTask` | src/storage/mongodb_storage.cpp:25-32 | the loop returns the comments of the task in order, and throws when it meets a document it cannot read |
| `MongoStorage.MongoStorage.AddReply` | src/storage/mongodb_storage.cpp:41-52 | the first comment with the id gains the reply at the end of its list, which is created if it is missing; a malformed id or a list that is no array throws and changes nothing, and only those |
| `MongoStorage.MongoStorage.GetTaskIdByCommentId` | src/storage/mongodb_storage.cpp:59-79 | the task of the comment, and -1 when the id is malformed or unknown, the task is no integer or the server cannot be reached |
| `MongoStorage.InsertReplyList` | src/storage/mongodb_storage.cpp:21-52 | insert, reply and list in turn: the reply is taken under any spelling of the id and shown |
| `ServiceHistory.CommentKept` | src/handlers/comment_handlers.cpp:28-40 | after any further requests an accepted comment reads back and is listed with the task its path spells, the author and text of its body, its user, its time to less than a millisecond and exactly the replies posted since |
| `ServiceHistory.RepliesKept` | src/handlers/comment_handlers.cpp:127-135 | over any requests a comment that is there gains exactly the replies posted to it, in order, each with its author, text and time, and keeps all else |
| `ServiceHistory.ProjectKept` | src/handlers/project_handlers.cpp:38-46 | after any further requests an accepted project is in the list with the fields of its form, its user as owner and its own id |
| `ServiceHistory.CommentAnswer` | src/handlers/comment_handlers.cpp:23-58 | a comment is reported as created exactly when its path, body and insert are good, and then the collection has grown by one, otherwise not changed |
| `ServiceHistory.ReplyAnswer` | src/handlers/comment_handlers.cpp:118-159 | a reply is reported as created exactly when the update is carried out; a known comment has then one reply more, and in every other case nothing has changed |
| `ServiceHistory.ProjectAnswer` | src/handlers/project_handlers.cpp:33-71 | which form and insert lead to which answer, and that only a created project, shown with its fields, is added |
| `HeldListings.InsertStaysSound` | src/handlers/comment_handlers.cpp:40-53 | after an insert, dropping the listing of its task leaves nothing stale |
| `HeldListings.ReplyStaysSound` | src/handlers/comment_handlers.cpp:132-155 | after a reply, dropping one listing or all of them, as the lookup answered, leaves nothing stale |
| `HeldListings.SoundAfter` | src/handlers/comment_handlers.cpp:23-159 | after every run of requests everything held is what a read of the store as it is now could give |
| `HeldListings.DropsOnly` | src/handlers/comment_handlers.cpp:52-155 | a successful write drops its own listing, or all listings of comments if the lookup found none, and no other |
| `HeldListings.HitWhileAlive` | src/handlers/project_handlers.cpp:115 | a listing that was read is a hit for sixty seconds, or three hundred for projects, and not longer |
| `HeldListings.TransparentIff` | src/handlers/comment_handlers.cpp:68-106 | over every run, for a text that tells listings of different lengths apart, the cached responses are the cache-free ones if and only if every hit is of a reachable store and holds as many projects as the replica has seen |
| `HeldListings.UnnoticedTransparent` | src/handlers/comment_handlers.cpp:68-106 | whatever the text, such hits leave every response as it would be without a cache |
| `HeldListings.TransparentForEveryTextIff` | src/handlers/project_handlers.cpp:84-118 | the responses are the cache-free ones under every rendering if and only if every hit is such |
| `HeldListings.HitFromLaggingReplica` | src/handlers/project_handlers.cpp:84-118 | a run of two reads that is still answered from a replica that had seen k projects when the replica has caught up |
| `HeldListings.TransparentIffReachable` | src/handlers/project_handlers.cpp:84-118 | with replicas that keep up and any text, if and only if no read of an unreachable store is a hit |
| `HeldListings.HitWithoutStore` | src/handlers/project_handlers.cpp:84-118 | a run of two reads in which the cached service answers and the cache-free one fails |
| `TaskService.ReadRepresents` | src/handlers/comment_handlers.cpp:72-105 | the keys and texts a read looks up, erases and sets represent the listings held, hit or miss |
| `TaskService.WriteRepresents` | src/handlers/comment_handlers.cpp:148-155 | the key or the prefix a successful write invalidates represents the listings it drops |
| `TaskService.TaskService.HandleGetComments` | src/handlers/comment_handlers.cpp:68-106 | the answer is the text of the held rows on a hit and that of the store otherwise, unreachable stores and unreadable documents included, and what is held changes accordingly |
| `TaskService.TaskService.HandleAddComment` | src/handlers/comment_handlers.cpp:23-58 | run alone, stores and response are those of the cache-free service, failed inserts included, and exactly the listing of the task is dropped |
| `TaskService.TaskService.HandleAddReply` | src/handlers/comment_handlers.cpp:118-159 | the same for replies, whatever the lookup answered |
| `TaskService.TaskService.HandleGetProjects` | src/handlers/project_handlers.cpp:84-118 | the same for the project list, read from a replica that has seen any number of the projects |
| `TaskService.TaskService.HandleCreateProject` | src/handlers/project_handlers.cpp:25-72 | run alone, stores and response are those of the cache-free service |
| `TaskService.TaskService.Run` | src/handlers/comment_handlers.cpp:23-159 | over every request sequence, every clock and every lag, stores and responses are exactly those of the two models; so hits that go unnoticed leave the service transparent, and for a text that tells listings of different lengths apart nothing else does |
| `CacheAside.LookupHolds` | src/handlers/comment_handlers.cpp:132-135 | in every interleaving a positive answer of the lookup is still the comment's task when the reply commits |
| `CacheAside.ChangesIffGoesTo` | src/handlers/comment_handlers.cpp:40-53 | a write changes the listing it goes to, as long as that can be read, and no other |
| `CacheAside.InvalidationErases` | src/handlers/comment_handlers.cpp:132-155 | in every interleaving a writer's invalidation erases the key of every listing its commit changed |
| `CacheAside.EntriesSound` | src/handlers/comment_handlers.cpp:75-105 | every entry is the render of some past store, set by one reader, and not erased since |
| `CacheAside.FreshOrExplained` | src/handlers/comment_handlers.cpp:40-53 | an entry differs from the current store only if a writer has committed without invalidating yet, or its own span from snapshot to `Set` encloses a commit and its invalidation |
| `CacheAsideWrites.ShowsIffRecorded` | src/handlers/comment_handlers.cpp:85-98 | a listing shows a comment, a reply or a project exactly when the store it was read from records it |
| `CacheAsideWrites.CommitRecords` | src/storage/mongodb_storage.cpp:21-52 | a commit of a comment, a reply or a project records it, with its fields, in the listing it goes to |
| `CacheAsideWrites.ShownIffLater` | src/handlers/comment_handlers.cpp:83-103 | a listing shows every write committed to it before it was read, and one that was not there already only then |
| `CacheAsideWrites.EntryLacksWriteIffStraddled` | src/handlers/comment_handlers.cpp:75-105 | an entry does not show an invalidated write exactly when its span encloses that write |
| `CacheAsideResponses.RespondedSound` | src/handlers/comment_handlers.cpp:75-105 | every response comes from one `Set`, served at once, or before anything erased it and before it expired |
| `CacheAsideResponses.LacksCompletedWriteIffStraddled` | src/handlers/comment_handlers.cpp:72-105 | a response does not show a write completed before its request began exactly when the span behind it encloses that write |
| `CacheAsideResponses.CompletedWritesVisible` | src/handlers/project_handlers.cpp:46-117 | without such spans every response shows, with its fields, every comment, reply and project that was committed to its listing and invalidated before its request began |
| `CacheAsideResponses.BoundedStaleness` | src/handlers/project_handlers.cpp:88-117 | under any interleaving a response shows a store no older than the time to live plus the reader's delay plus the replica's lag |
| `CacheAsideResponses.CommentsStaleness` | src/handlers/comment_handlers.cpp:83-103 | for comments the bound is sixty seconds plus the reader's delay |
| `CacheAsideResponses.ProjectsStaleness` | src/handlers/project_handlers.cpp:88-117 | for projects it is three hundred seconds plus the reader's delay plus the replica's lag |
| `CacheAsideRace.RaceIsReal` | src/handlers/comment_handlers.cpp:75-105 | for every comment and every project a run in which the completed write stays invisible for the full sixty or three hundred seconds |
| `CacheAsideProgress.Begins` | src/handlers/comment_handlers.cpp:23-72 | in every state of every run any request can begin |
| `CacheAsideProgress.ReaderGoesOn` | src/handlers/comment_handlers.cpp:72-105 | in every state of every run a reader can take its next step, and what the step yields |
| `CacheAsideProgress.WriterGoesOn` | src/handlers/comment_handlers.cpp:132-155 | so can a writer, as long as the server carries out its update |
| `CacheAsideCache.GetRefines` | src/cache/cache_manager.cpp:12-28 | a reader goes on by the answer of the cache object |
| `CacheAsideCache.CacheRefines` | src/cache/cache_manager.cpp:12-58 | at every point of every run the cache is what the cache object holds after the calls made so far |
| `LikeSearch.MatchesMask` | src/storage/in_memory_storage.cpp:19-22 | true exactly when the mask occurs in the value, the empty mask included |
| `LikeSearch.PlainLikeIsSubstring` | src/storage/postgres_storage.cpp:33-36 | for masks without special characters LIKE accepts exactly the values that contain the mask |
| `LikeSearch.SubstringHitIsILikeHit` | src/storage/postgres_storage.cpp:33-36 | for masks without a backslash, wildcards or not, every case-folded substring hit is an ILIKE hit |
| `LikeSearch.LikeIsSubstringIffPlain` | src/storage/postgres_storage.cpp:33-36 | the ILIKE search equals the case-folded substring search on all values exactly for masks without special characters |
| `LikeSearch.LikeIsMatchesMaskIff` | src/storage/postgres_storage.cpp:33-36 | the ILIKE search equals the substring search of `MatchesMask` on all values exactly for masks without special characters and without a letter that has two cases |
| `LikeSearch.AnnFindsAnotherCase` | src/storage/postgres_storage.cpp:82-97 | the mask ann finds ANN |
| `LikeSearch.NoHitLostIffFindsItself` | src/storage/postgres_storage.cpp:33-36 | for any mask, every value that contains it is found exactly when the mask itself is |
| `LikeSearch.NoFoldedHitLostIffFindsItself` | src/storage/postgres_storage.cpp:33-36 | the same under ILIKE, both sides case folded |
| `LikeSearch.LeadingEscapesLoseNoneFolded` | src/storage/postgres_storage.cpp:33-36 | masks whose backslashes all start a segment between percent signs lose no case-folded hit |
| `LikeSearch.DanglingLosesHits` | src/storage/postgres_storage.cpp:33-36 | a mask that ends in an unescaped backslash loses a hit, itself |
| `LikeSearch.InnerBackslashLosesHits` | src/storage/postgres_storage.cpp:33-36 | the mask of an a, a backslash and a b does not find itself |
| `LikeSearch.PatternIsWellFormed` | src/storage/postgres_storage.cpp:33-36 | no mask yields a pattern that ends in the middle of an escape |
| `UserSearch.SearchUsersByLogin` | src/storage/in_memory_storage.cpp:48-58 | the loop returns exactly the users whose login contains the mask, in table order |
| `UserSearch.SearchUsersByFirstNameLastName` | src/storage/in_memory_storage.cpp:61-73 | the loop returns exactly the users whose names contain both masks |
| `UserSearch.RowsCount` | src/storage/in_memory_storage.cpp:48-73 | the rows found are those selected, each as often as it is in the table |
| `UserSearch.RowsConcat` | src/storage/in_memory_storage.cpp:48-73 | in the order of the table |
| `UserSearch.ReturnsAllIff` | src/storage/postgres_storage.cpp:82-97 | a query with its LIMIT returns all rows its condition selects exactly when these are at most 100 |
| `UserSearch.LoginSearchesAgreeIff` | src/storage/postgres_storage.cpp:82-97 | exactly for such masks the query returns, from every table with at most 100 hits and no other, what the in-memory login search finds, less the deleted users |
| `UserSearch.NameSearchesAgreeIff` | src/storage/postgres_storage.cpp:99-120 | the same for the search by first and last name, exactly when both masks are such |
| `Events.PublishedIsStorable` | src/event/event_types.hpp:17-97 | every envelope of every event kind passes the consumer's checks and is stored with the id, type, timestamp and payload it was published with |
| `Events.DecodesIff` | src/event/event_consumer.cpp:52-150 | exactly which messages are stored, and as what: the envelope carries the three strings and a payload that converts and, for the five known types, tells of an event in every field its handler reads |
| `Events.PayloadRoundTrip` | src/event/event_types.hpp:17-97 | the event can be recovered from its type name and payload |
| `Events.PayloadDeterminesEvent` | src/event/event_types.hpp:17-97 | so a payload and its type name determine the event |
| `Events.GoesByTopicAndKey` | src/event/event_producer.cpp:73-116 | the topic of each kind of event, and the id it is keyed by |
| `Events.RecordShowsLane` | src/event/event_producer.cpp:73-116 | the record of a message shows the topic and the key it was sent with |
| `EventPipeline.EnvelopeTrace` | src/event/event_producer.cpp:57-59 | the trace id of a request that carries one is the one in the envelope |
| `EventPipeline.EventProducer.Publish` | src/event/event_producer.cpp:45-71 | one envelope goes to the end of the log of its lane, with the request's trace id if it has one, or nothing when the send fails |
| `EventPipeline.EventProducer.PublishEvent` | src/event/event_producer.cpp:73-116 | topic, key, type name and payload of all five kinds are those of the event |
| `EventPipeline.EventProducer.PublishAll` | src/event/event_producer.cpp:45-116 | after any run every lane's log holds the messages sent to it, in publication order |
| `EventPipeline.EventConsumer.StoreEvent` | src/event/event_consumer.cpp:152-179 | a record is stored unless its payload does not convert or the insert fails, which is swallowed |
| `EventPipeline.EventConsumer.ProcessBatch` | src/event/event_consumer.cpp:49-92 | a batch stores the records of its well-formed messages in order and skips the others |
| `EventPipeline.BatchingIrrelevant` | src/event/event_consumer.cpp:49-92 | batches store what their concatenation stores |
| `EventPipeline.EndToEnd` | src/event/event_consumer.cpp:31-92 | however the lanes are interleaved, with every insert accepted the records of each lane are those of the events sent to it, in publication order, and over all lanes exactly what was sent is stored |
| `LaneOrder.OrderKeptIff` | src/event/event_producer.cpp:45-116 | every interleaving of the lanes is stored in the order of publication if and only if everything sent went through one partition of one topic |
| `LaneOrder.OrderBetweenTopicsNotKept` | src/event/event_producer.cpp:75-111 | a login and a project created after it may be fed in either order |
| `Delivery.PassStores` | src/event/event_consumer.cpp:52-90 | each pass stores in log order |
| `Delivery.PassRecords` | src/event/event_consumer.cpp:52-90 | the documents of a pass are the records of the messages it stores |
| `Delivery.ConsumeAll` | src/event/event_consumer.cpp:49-92 | over any run of passes the consumer object holds exactly the records of the offsets the run stores |
| `Delivery.StoredCount` | src/event/event_consumer.cpp:31-35 | a well-formed message is stored once per pass that reached it with its insert accepted, an ill-formed one never |
| `Delivery.RedeliverySafety` | src/event/event_consumer.cpp:31-35 | when inserts succeed, a well-formed message below the high-water mark is stored at least once and at most one plus the number of restarts times |
| `Delivery.StoredIffAccepted` | src/event/event_consumer.cpp:172-178 | a well-formed message is stored exactly when some pass that reached it had its insert accepted |
| `Delivery.SwallowedInsertLosesMessage` | src/event/event_consumer.cpp:172-178 | a run that passes a well-formed message by without storing it |
| `Delivery.RestartStoresTwice` | src/event/event_consumer.cpp:164-172 | a run with one restart that stores a message twice |
| `LaneDelivery.LanesApart` | src/event/event_consumer.cpp:31-92 | with passes of its own for every lane and any interleaving, what is stored of a lane are the records at the offsets that its own passes store, failed inserts included |
| `LaneDelivery.OnePassFeeds` | src/event/event_consumer.cpp:31-92 | every interleaving of one pass over each lane is such a feed |
| `LaneDelivery.AtLeastOnce` | src/event/event_consumer.cpp:31-92 | over all lanes, when inserts succeed, every record is stored at least as often as it was sent among what the passes of its lane have reached, and at most as often as that in every pass |
| `LaneDelivery.AllSentStored` | src/event/event_consumer.cpp:31-92 | once every lane has been read to its end, at least as often as it was sent and at most that times one plus the restarts of its lane |

## Left out

- CommentFromBson: a `replies` field that holds an embedded document is an exception here, while the library would
  iterate its members.
- GetCommentsByTask: numbers other than 32-bit integers are not among the BSON values of the model.
- ProcessBatch: a JSON number with a fraction never reads as an integer.
- RetryAfterWindow: `Retry-After` is not the exact time left, so nothing more is claimed of it.
- Publication of events by the handlers: it does not touch the stores or the cache, so the handler models skip it.
- The failed insert that took effect all the same: `TaskService` takes a failed insert as one that changed nothing;
  in `CacheAside` it is a writer that commits and never invalidates.
- JSON rendering, JSON and BSON text, JWT, SHA-256, HTTP and logging: library code, taken as given functions.
- Random event and comment ids and timestamp formatting: library randomness and `gmtime`.
- Registration, task creation, field checks and the in-memory id counters: they would only add easy members.
- Multi-byte case folding that changes the length of a string.
- PostgreSQL, MongoDB and Kafka themselves: atomic operations on sequences and logs.
