# Verified model of the platform's tenancy, session and concurrency core

This project models the parts of the multi-tenant monitoring backend (and one part
of its console) that carry real protocols and algorithms, and proves what they
promise. Run `dafny verify dfyconfig.toml`.

| file | models |
|---|---|
| `TenantContext` | the two context variables that name the tenant, as nested requests, `unscoped()` blocks and exceptions set and reset them |
| `Tenancy`, `TenancyHook` | the query hook: which tables are scoped and how, the rewrite it attaches, what rewritten SELECT, UPDATE and DELETE do to a relational database; the hook as the class with the cache it is |
| `Coverage` | which queries the hook confines: those that select the scoped tables they read |
| `Isolation` | interleavings of several tenants' statements, and when one tenant's answer depends on another's rows |
| `Requests` | requests as tasks that take turns, each with its own context, on one database |
| `Incidents`, `IsoTime` | grouping alerts into incidents, and the order of ISO 8601 time stamps compared as strings |
| `Session` | logins, access and refresh tokens, requests and reassignments of users, as one trace of events |
| `Batch` | the bounded batch processor as a transition system |
| `Broadcast`, `WsManager` | channels and broadcasts that interleave, first as a transition system over list objects, then as the class that mutates them |
| `RateLimit` | the sliding-window limiter |
| `TenantGuard` | the middleware that buffers a body, judges it and replays it |
| `Slugs` | slugs and the search for a free one |
| `Feed`, `StableSort` | the activity feed merged from six truncated sources |
| `JwtDecode` | reading the payload of a token in the browser |
| `Html` | HTML escaping |

## How it is modelled

A **database** maps a table to its rows, a row to its columns. A row belongs to a
workspace by its own `workspace_id` or through the first foreign key to a table that
has one; its *slice* is what a workspace owns, plus every table that is not scoped.
A statement is a SELECT with a list of selected classes, a chain of inner and left
outer joins with any join conditions, any final condition and any function from the
tuples found to an answer (columns, counts, order, limit), an UPDATE with any filter
and any assignment, a DELETE with any filter, or an INSERT. The hook goes through
`all_mappers`, which SQLAlchemy documents as the mappers represented in the rows of
the result: a class gets a criterion if it is in the select list, not if it is only
joined or counted. As `with_loader_criteria` does, the criteria of a joined entity go
into its ON clause and those of the leading entity into WHERE. Every foreign key
and every unique constraint is enforced: a write that leaves a key without its row, or
two rows with one unique value, is rejected. A delete cascades
along the key that scopes the child, where that key says so, and is refused by any
other reference.

**Sessions** are traces of events with times. Signatures are unforgeable: a token
decodes only if the service signed it. Section 4.1.4 of RFC 7519 has a token refused
at its expiry, and the decoder of the pinned library accepts it in that very second:
each event carries which it does, so every bound holds of both. Times are whole
seconds, as in section 2. Reading a user's row and signing a token for it are two
events, at most a *latency* apart, and so are authenticating a request and resolving
its workspace, at most a *delay* apart.

**Concurrency** is every interleaving of steps. A step of the batch processor is one
launch, one acquisition of the semaphore, one return or one collection; waiting tasks
may acquire it in any order. A step of the socket manager is one stretch of code
between two awaits, and lists are objects with identity: `connect` appends to the
bound object, `disconnect` binds a new one, and a broadcast keeps iterating over the
object it started with.

**Inputs from outside** (clocks, JSON and query parsing, whether a send fails, case
mapping of characters, whether a text parses as a UUID) are parameters.

## Where the code does not do what it says

* "Every ORM SELECT touching a model that has a `workspace_id`" is confined only if it
  selects that model. A bare count counts every workspace's rows
  (`Coverage.CountsSpanWorkspaces`, `Coverage.CountInput`), and a join to a class that
  is not selected reads every workspace's (`Coverage.JoinInput`).
  `Coverage.AnsweredOnTheSliceIff` says exactly which queries are confined.
* A foreign key may name another workspace's row, since INSERT is not covered, and a
  unique constraint may span workspaces. Then one workspace's write is answered
  according to another's rows. `Isolation.AnswerDependsOnOthersIff` says exactly when;
  `Isolation.AnnotationInput` and `Isolation.IntegrityRecordInput` give the rows.
* "A malformed claim must not silently widen the scope": it binds no workspace, which
  switches the filter off, as a missing one does (`TenantContext.MalformedInput`).
  `TenantContext.UnfilteredIff` says exactly when statements go unfiltered. The
  authentication middleware never binds a malformed id.
* `sanitize_html` says that it strips tags repeatedly and then escapes. It escapes
  first, and then there is nothing to strip: tags come through as text
  (`Html.TaggedInputs`). It does what it says on exactly the texts that hold no tag:
  `Html.AsDocumentedIffNoTag`.
* The feed "sorted newest-first and truncated" can lose a row newer than one it
  shows. A pipeline run may have no start time; the database lists it before all
  dated ones and it is then stamped with the time of the request.
  `Feed.NothingNewerLeftOutIff` says exactly when this does no harm, and
  `Feed.UndatedRunsCrowdOutFutureOnes` gives rows where it does.
* The rate limiter reads the clock before it takes the lock. When readings arrive out
  of order by up to d, its limit holds on windows of W - d and on no longer ones:
  `RateLimit.SafeWindowsIff`. On runs of `is_allowed` alone, the only calls the
  application makes, that is so for every limit but one:
  `RateLimit.SafeWindowsOfAdmissionsIff`.
* A workspace whose name slugifies to nothing gets the slug `-1` once the empty slug
  is taken, which is not a slug of the promised form: `Slugs.EmptyNameInput`. It is so
  exactly when `Slugs.IssuedIsSlugIff` says.
* Nothing keeps `max_concurrent` from being zero. The batch processor then waits for
  ever: `Batch.DeadlockFreeIffSomethingMayRun`.

## Model

| member | source | states |
|---|---|---|
| TenantContext.ContextVars.SetCurrentWorkspace | backend/app/core/tenancy.py:101-112 | binds the workspace of a UUID or of a text that parses as one, and no workspace for a missing or malformed id, and returns a token with the value it replaced |
| TenantContext.ContextVars.ResetCurrentWorkspace | backend/app/core/tenancy.py:115-116 | puts back what the token remembers |
| TenantContext.ContextVars.SetBypass | backend/app/core/tenancy.py:127 | sets the bypass and returns a token with its former value |
| TenantContext.ContextVars.ResetBypass | backend/app/core/tenancy.py:131 | puts the former bypass back |
| TenantContext.ContextVars.Run | backend/app/core/tenancy.py:119-131 | for every nesting of requests, unscoped blocks, handlers and exceptions, both variables on exit are those on entry, and every statement saw the scope that the nesting gives it lexically |
| TenantContext.ContextVars.RunRequest | backend/app/middleware/auth.py:91-125 | the same for one request, for each way its credential may resolve |
| TenantContext.PlainCodeSeesItsRequest | backend/app/middleware/auth.py:110-121 | code without blocks of its own sees the scope it is run in at every statement, also in exception handlers |
| TenantContext.NamedWorkspaceIsSeen | backend/app/middleware/auth.py:110-121 | the statements of a request whose credential names a workspace are confined to it, whatever was in context |
| TenantContext.DeniedExecutesNothing | backend/app/middleware/auth.py:100-108 | a request that must have an identity and has none executes nothing |
| TenantContext.UnscopedSeesNoFilter | backend/app/core/tenancy.py:119-131 | nothing in an unscoped block is filtered, and what follows it in the same code is filtered as before |
| TenantContext.StraightCodeExecutesAll | backend/app/middleware/auth.py:120-125 | code that raises nothing and is refused nowhere executes all its statements, in order, through requests and unscoped blocks |
| TenantContext.ExceptionGoesToItsHandler | backend/app/core/tenancy.py:128-131 | an exception skips the rest of its block and its handler runs |
| TenantContext.ScopeComesFromABinding | backend/app/core/tenancy.py:223-228 | no statement is ever scoped to a workspace that neither the surroundings nor an enclosing request bound |
| TenantContext.BypassWinsEverywhere | backend/app/core/tenancy.py:119-131 | inside an unscoped block nothing is filtered, whatever requests are nested in it |
| TenantContext.UnfilteredIff | backend/app/core/tenancy.py:101-112 | a request's statements go unfiltered if and only if there is a bypass, or the id its credential carries is missing or malformed, or it carries no identity and no workspace was in context |
| TenantContext.MalformedInput | backend/app/core/tenancy.py:105-111 | a malformed id switches the filter off although a workspace was in context |
| Tenancy.FirstScopedKeyIsAKey | backend/app/core/tenancy.py:155-160 | the key chosen in a column is one of its keys and leads to a scoped, non-exempt parent; none is chosen only if none does |
| Tenancy.ParentScopeFindsAParent | backend/app/core/tenancy.py:134-163 | a scoped parent is found if and only if some column has a key to one |
| Tenancy.ParentsOwnTheirRows | backend/app/core/tenancy.py:159-160 | the parent that scopes a child owns its rows itself, so one hop is enough, and it is never the child |
| Tenancy.ScopedIff | backend/app/core/tenancy.py:180-194 | a table is scoped if and only if it is not one of the three exempt ones and has a workspace column, or else a key to such a table; it owns its rows by its column exactly if it has one |
| Tenancy.CriteriaAreThoseOfTheScope | backend/app/core/tenancy.py:232-251 | the rewrite carries, for every scoped class of the statement, the criterion of its scope, and no other |
| Tenancy.AllowedIsVisible | backend/app/core/tenancy.py:233-242 | the attached criteria admit a row if and only if its class is not at the top level of the statement, its table is not scoped, or the workspace owns it |
| Tenancy.ExtensionsRestricted | backend/app/core/tenancy.py:244-251 | one join under any criteria, inner or left outer, gives what it gives without them on the rows that pass them |
| Tenancy.JoinsRestricted | backend/app/core/tenancy.py:244-251 | so does a whole chain of joins, for the tuples whose leading row passes |
| Tenancy.EvaluateRestricted | backend/app/core/tenancy.py:244-251 | so does a whole query, with any joins and conditions |
| Tenancy.ViewIsRestriction | backend/app/core/tenancy.py:232-251 | the rows that pass the criteria of the hook are the slice of the selected classes and every other table in full |
| Tenancy.ScopingKeyRefers | backend/app/core/tenancy.py:154-160 | the key by which a child is scoped is one of the keys that the database enforces |
| Tenancy.MatchingOnSlice | backend/app/core/tenancy.py:212-218 | the rows a rewritten UPDATE or DELETE matches are those the original matches on the slice |
| Tenancy.RewrittenSelectReadsItsView | backend/app/core/tenancy.py:211-251 | the meaning of the rewrite for every query: it answers what the original answers where the selected classes are cut to the slice and all else is left |
| Tenancy.RewrittenSelectReadsTheSlice | backend/app/core/tenancy.py:211-251 | a query that selects every scoped table it reads answers, rewritten and on the whole database, exactly what the original answers on the slice |
| Tenancy.NothingSelectedNothingConfined | backend/app/core/tenancy.py:180-195 | a query that selects no scoped class is executed as if there were no hook |
| Coverage.AnsweredOnTheSliceIff | backend/app/core/tenancy.py:180-195 | a select list and a FROM, with all their conditions and on all databases that keep their keys, are answered on the slice if and only if every scoped table of the FROM is in the select list |
| Coverage.CountsSpanWorkspaces | backend/app/api/routes/pipeline.py:694-703 | for every database, a bare count gives the number of rows of the whole table, where on the slice it is that of the workspace |
| Coverage.CountInput | backend/app/api/routes/pipeline.py:694-703 | two workspaces with one pipeline each: one of them counts two |
| Coverage.JoinInput | backend/app/core/tenancy.py:180-195 | a join to a class that is not selected is answered from another workspace's row |
| Tenancy.DeadAreOwn | backend/app/core/tenancy.py:137-141 | whatever goes with the rows a workspace deletes, by cascade, is its own |
| Tenancy.RewrittenWriteConfined | backend/app/core/tenancy.py:212-218 | a rewritten UPDATE or DELETE leaves every row outside the slice in place and unchanged |
| Tenancy.DeleteRemoves | backend/app/core/tenancy.py:30-36 | a rewritten DELETE that takes effect removes exactly the workspace's rows that meet its filter and the children that cascade from them, and counts the former |
| Tenancy.UpdateAssigns | backend/app/core/tenancy.py:30-36 | a rewritten UPDATE that takes effect assigns exactly the workspace's rows that meet its filter, and counts them |
| Tenancy.NothingElseIsWritten | backend/app/core/tenancy.py:212-218 | an INSERT that takes effect adds its row and nothing else, no other statement adds a row, and queries and rejected statements change nothing |
| Tenancy.QueryFinds | backend/app/core/tenancy.py:20-28 | a rewritten query of one class finds exactly the workspace's rows that meet its condition |
| Tenancy.JoinPairs | backend/app/core/tenancy.py:237-242 | a join pairs a tuple with exactly the rows its condition admits, and an outer one keeps exactly the tuples that have none |
| Isolation.RejectedIff | backend/app/core/tenancy.py:211-218 | a write is rejected if and only if it takes a key in use or would leave a foreign key or a unique constraint broken |
| Isolation.IntegrityPreserved | backend/app/core/tenancy.py:211-218 | no statement, scoped or not, leaves any foreign key without its row |
| Isolation.DistinctPreserved | backend/app/models/evidence.py:132-134 | nor two rows of a table with one unique value |
| Isolation.ContainedPreserved | backend/app/core/tenancy.py:211-218 | disciplined statements keep the invariant that no row of a scoped table names a row of another workspace |
| Isolation.WrittenOrKept | backend/app/core/tenancy.py:211-218 | every row after a disciplined statement is as it was, or is the workspace's, was so before if it existed, and names nothing outside its slice |
| Isolation.OwnerAfter | backend/app/core/tenancy.py:237-242 | a disciplined statement of one workspace changes the owner of no row whose parent stays |
| Isolation.OthersUnaffected | backend/app/core/tenancy.py:211-251 | a disciplined statement of one workspace leaves every other workspace's slice exactly as it was |
| Isolation.OwnOutcome | backend/app/core/tenancy.py:212-218 | a disciplined write is accepted, rejected and counted as if the database held nothing but the slice, all foreign keys and unique constraints considered |
| Isolation.OwnStepOnSlice | backend/app/core/tenancy.py:211-251 | what a disciplined statement does to its own slice, and what it answers, is what it does without the hook on a database that is only the slice |
| Isolation.NothingToExclude | backend/app/core/tenancy.py:226-251 | on a database that is only the slice the hook changes nothing, for every statement |
| Isolation.RunGoesOn | backend/app/core/tenancy.py:211-251 | a run goes on from where it stands |
| Isolation.AnswersGoOn | backend/app/core/tenancy.py:211-251 | and what a workspace is answered is what it was answered before and the answer there |
| Isolation.NonInterference | backend/app/core/tenancy.py:211-251 | in every interleaving of any number of workspaces, one workspace's answers and final slice are those of running its statements alone |
| Isolation.InterleavingsAreIndistinguishable | backend/app/core/tenancy.py:211-251 | two runs that agree on one workspace's slice and statements are indistinguishable to it, however the others differ |
| Requests.MoveKeepsMeaning | backend/app/core/tenancy.py:101-131 | one step of a task, through nested requests, unscoped blocks, handlers and the restoring of variables, executes what comes first in the lexical meaning of the code it has left, and leaves the rest |
| Requests.TasksDoNotShareContext | backend/app/core/tenancy.py:89-96 | under every schedule of any number of tasks, what each has seen and what it has left are together what its program means on its own |
| Requests.StatementsCarryTheirRequestsWorkspace | backend/app/middleware/auth.py:110-125 | under every schedule, each statement carries the workspace of its own request, whoever ran between its steps |
| Requests.RequestsDoNotInterfere | backend/app/middleware/auth.py:116-125 | any number of requests of any number of workspaces take turns at one database: each workspace's are answered, and its slice is left, as if they had run alone on a database without anybody else's rows |
| Isolation.AnswerDependsOnOthersIff | backend/app/core/tenancy.py:212-218 | a write to a scoped table is answered otherwise than on the slice if and only if it inserts under a key or with a unique value that a row outside has, gives a row such a value, makes a row name one, or deletes a row that one of them names, and nothing else is against it |
| Isolation.IntegrityRecordInput | backend/app/models/evidence.py:132-134 | two workspaces record assets of one name: the second may not, though alone it may |
| Isolation.AnnotationInput | backend/app/models/annotation.py:12-13 | an annotation filed under another workspace's dataset is accepted, which on its own slice it would not be, and then that workspace may not delete its dataset, which alone it may |
| Isolation.UpdateReachesATenantIffItReparents | backend/app/core/tenancy.py:212-218 | an UPDATE that takes effect changes another workspace's slice if and only if it assigns a matched row to that workspace |
| Tenancy.SameRestrictionSameEffect | backend/app/core/tenancy.py:244-251 | criteria that let the same rows pass have the same effect and answer |
| Tenancy.AttachingTwiceIsHarmless | backend/app/core/tenancy.py:200-208 | registering the hook twice, hence applying the criteria twice, changes no effect and no answer |
| TenancyHook.CriteriaOfScopedEntities | backend/app/core/tenancy.py:232-242 | the list of scoped entities yields exactly the rewrite |
| TenancyHook.WorkspaceFilter.ScopedEntitiesOf | backend/app/core/tenancy.py:171-197 | whatever the cache holds, the list is that of the scoped classes in order, and the cache stays correct |
| TenancyHook.WorkspaceFilter.Apply | backend/app/core/tenancy.py:211-251 | the statement gains exactly the rewrite, for the classes at its top level and the workspace in context, and is left alone when there is none, under a bypass, for an INSERT and for a relationship load |
| IsoTime.EarlierIsLess | backend/app/api/routes/alerts.py:417-422 | comparing calendar fields is comparing microseconds since the first day, leap years included |
| IsoTime.TickIsOne | backend/app/api/routes/alerts.py:403 | the time line counts microseconds: the next one, with all carries through the calendar, is one more |
| IsoTime.LeapYearsCounted | backend/app/api/routes/alerts.py:403 | the years have the days of the Gregorian calendar |
| IsoTime.PadOrder | backend/app/api/routes/alerts.py:418 | zero-padded numbers of one width compare as strings as they do as numbers |
| IsoTime.PadDenotes | backend/app/api/routes/alerts.py:418 | and denote their number |
| IsoTime.FractionOrder | backend/app/api/routes/alerts.py:418 | so do fractions of a second, although a zero fraction is not printed |
| IsoTime.IsoOrder | backend/app/api/routes/alerts.py:417-422 | ISO stamps of UTC times compare as strings exactly as the times do |
| IsoTime.IsoTotal | backend/app/api/routes/alerts.py:417-422 | distinct times never print alike: exactly one of the two stamps is the lesser |
| IsoTime.IsoLayout | backend/app/api/routes/alerts.py:418 | a stamp is laid out as date, T, time, the fraction if there is one, and the offset |
| Incidents.CollectGroup | backend/app/api/routes/alerts.py:396-406 | the inner loop collects exactly the alerts whose leader this is, and marks as used exactly those that have a leader so far |
| Incidents.ListIncidents | backend/app/api/routes/alerts.py:389-427 | one incident is reported for each group, in order, with the number and the ids of its alerts in order, the id, rule and status of its first, its worst severity by name and its earliest and latest time |
| Incidents.EveryAlertIsReportedOnce | backend/app/api/routes/alerts.py:408-425 | hence every alert's id is reported in exactly one incident, exactly once |
| Incidents.LeadProperties | backend/app/api/routes/alerts.py:393-406 | an alert's leader is the first leader it is close to, itself if there is none |
| Incidents.GroupsPartition | backend/app/api/routes/alerts.py:393-406 | every alert is in exactly one place of exactly one group |
| Incidents.GroupsAreTight | backend/app/api/routes/alerts.py:401-404 | any two alerts of a group, not only leader and member, are of one rule and at most the window apart |
| Incidents.LeadersAreFarApart | backend/app/api/routes/alerts.py:398-404 | dated leaders of one rule are more than the window apart |
| Incidents.GroupsAreContiguous | backend/app/api/routes/alerts.py:393-406 | a group is a contiguous run of its rule's timeline |
| Incidents.GreedyIsMinimal | backend/app/api/routes/alerts.py:393-406 | for each rule, no partition whose groups are within the window has fewer groups |
| Incidents.GreedyIsTight | backend/app/api/routes/alerts.py:393-406 | the greedy groups are such a partition, so the minimum is attained |
| Incidents.OnlyTheLatestLeaderMatters | backend/app/api/routes/alerts.py:398-406 | an alert belongs to the latest leader of its rule or opens a group |
| Incidents.SweepStep | backend/app/api/routes/alerts.py:393-406 | one step of a single-pass sweep that remembers one leader per rule keeps its groups those of the nested loops |
| Incidents.SweepFormsTheGroups | backend/app/api/routes/alerts.py:393-406 | the quadratic nested loops and the single-pass sweep form the same groups |
| Incidents.SeverityIsExact | backend/app/api/routes/alerts.py:413-416 | the reported severity is critical if some alert of the group is, otherwise high, medium or low in that order, and the first alert's if none has any of the four |
| Incidents.TimesAreExact | backend/app/api/routes/alerts.py:417-422 | the reported first and last time, a minimum and maximum of strings, print the true earliest and latest time of the group |
| Incidents.NoTimesReported | backend/app/api/routes/alerts.py:417-422 | a group without a dated alert reports no times |
| Session.AccessTokenMeaning | backend/app/core/security.py:67-77 | an access token is worth its user and the workspace of its minting for thirty minutes, then nothing, and never refreshes, under either reading of the moment of expiry |
| Session.RefreshTokensAreNotCredentials | backend/app/core/identity.py:125-126 | no refresh token ever yields an identity |
| Session.WorkspaceOfMinted | backend/app/core/identity.py:77-85 | the claim search reads back the workspace the token was minted with, and none if there was none |
| Session.ClaimSearch | backend/app/core/identity.py:77-85 | for any claims, the first of the names that is present and not empty decides: a UUID is the workspace, anything else an error, and there is none only if none is present |
| Session.LoginReadsTheRow | backend/app/services/auth_service.py:116-129 | a login opens if and only if the user has a row, and what is read is that row |
| Session.RefreshIsBegunIff | backend/app/services/auth_service.py:131-145 | for any token, a refresh is begun if and only if the service signed it, it has not expired, it is a refresh token and it names a user who has a row |
| Session.MintAnswers | backend/app/services/auth_service.py:149-151 | what was read comes to exactly one access token, which is signed and authenticates its user with the workspace that was read, and at a login to one refresh token besides, which may be used |
| Session.RefreshYieldsAToken | backend/app/services/auth_service.py:131-151 | within seven days a signed refresh token of a user with a row yields exactly one token, which authenticates the user with the workspace the row holds at that moment |
| Session.RowsAreWritten | backend/app/services/auth_service.py:76-108 | a registration makes the row of a user who has none, a reassignment changes that of a user who has one, and neither touches another |
| Session.AuthenticationAnswers | backend/app/core/identity.py:116-133 | an unexpired access token that the service signed authenticates its user and publishes its workspace; an expired or foreign token never authenticates |
| Session.ResolutionAnswers | backend/app/core/deps.py:187-210 | a request resolves to what was published or memoised, or else to exactly what the row holds, and is forbidden only if neither exists |
| Session.NewlySigned | backend/app/services/auth_service.py:29-59 | whatever is signed is an access token with the workspace that was read, or at a login a refresh token with an identity only |
| Session.ReadingsAreTrue | backend/app/services/auth_service.py:140-151 | what is about to be signed is what the user's row said at some moment, when it was read |
| Session.SignedWasRead | backend/app/services/auth_service.py:116-151 | every signed token of a run is a refresh token or carries the workspace its user's row held within the latency before the signing |
| Session.AcceptedIsFresh | backend/app/core/identity.py:116-133 | a workspace taken from an accepted token was in the user's row within the thirty minutes and the latency before |
| Session.RequestsAreFresh | backend/app/core/deps.py:187-210 | an invariant of every run: every workspace a request holds, read from its token or memoised from the row, was in the user's row no earlier than thirty minutes and the latency before the request was authenticated |
| Session.BoundedStaleness | backend/app/core/deps.py:171-210 | in every run, if a request resolves at time t to a workspace, the user's row held it at some moment of [t - 30 min, t], widened by the latency of signing and by the delay since authentication, however long the chain of refreshes |
| Session.StalenessBoundIsReached | backend/app/services/auth_service.py:40-44 | for every latency and delay there is a run in which a request resolves to a workspace its user left exactly thirty minutes, the latency and the delay before: the bound cannot be improved |
| Session.DescendantsExpire | backend/app/services/auth_service.py:131-151 | everything that descends from a login speaks for the user who logged in; a descendant access token is signed within seven days and two latencies of it, strictly if expiry is |
| Session.ReadingsAreWellFounded | backend/app/services/auth_service.py:131-145 | a row is read for a refresh only on a refresh token that the service signed, that had not expired, and that names the user of the row |
| Session.EveryTokenHasALogin | backend/app/services/auth_service.py:76-151 | every signed token descends from a login or registration of its user |
| Session.SessionLifetime | backend/app/core/security.py:39-41 | a request accepted on a descendant of a login comes no later than the login plus seven days and thirty minutes (and two latencies), earlier if expiry is strict, on an access token, as the user who logged in |
| Session.EveryIdentityHasARecentLogin | backend/app/core/security.py:67-111 | hence behind every accepted request there is a login of that user, that recent |
| Batch.InitialInvariant | backend/app/core/batch.py:37-38 | the invariant holds at the start |
| Batch.StepInvariant | backend/app/core/batch.py:40-47 | every step keeps it: permits and running items add up to the limit, finished batches are in the results in order, later ones have not started |
| Batch.RunInvariant | backend/app/core/batch.py:37-49 | so it holds after every run |
| Batch.BoundedConcurrency | backend/app/core/batch.py:28-30 | at no moment of any interleaving are more than min(batch_size, max_concurrent) items in flight |
| Batch.StartsAtABatch | backend/app/core/batch.py:44 | the loop is always at a multiple of the batch size |
| Batch.Barrier | backend/app/core/batch.py:44-46 | an item has started only if every item of every earlier batch has returned |
| Batch.StatusCountsRuns | backend/app/core/batch.py:40-42 | the status of an item says how often it was started and what it returned, over every run: at most once |
| Batch.CompleteRunIsAnInOrderMap | backend/app/core/batch.py:34-35 | when the processor is done, every item was run exactly once and the results are what the items returned, in order |
| Batch.EveryStepDecreases | backend/app/core/batch.py:44-47 | a measure falls with every step, so every run ends |
| Batch.DeadlockFreeIffSomethingMayRun | backend/app/core/batch.py:37-46 | no reachable unfinished state is stuck if and only if the semaphore admits someone or there are no items |
| Batch.Gather | backend/app/core/batch.py:40-46 | awaiting a batch, with a scheduler that picks any task that can move, ends with all its items returned |
| Batch.ProcessBatch | backend/app/core/batch.py:44-49 | whatever the scheduler picks, the loop ends and returns the processor applied to each item, in order |
| Broadcast.ConnectInvariant | backend/app/ws/manager.py:10-15 | connecting keeps the server's invariant and that of every broadcast under way |
| Broadcast.DisconnectInvariant | backend/app/ws/manager.py:17-26 | so does disconnecting |
| Broadcast.DisconnectAllInvariant | backend/app/ws/manager.py:38-39 | so does dropping the failed connections |
| Broadcast.StepInvariant | backend/app/ws/manager.py:10-39 | so does every step: no channel holds an empty list, no two share one, and each broadcast has sent to exactly a prefix of its list object, which begins with the members at its start |
| Broadcast.RunInvariant | backend/app/ws/manager.py:10-39 | so it holds after every interleaving |
| Broadcast.DisconnectMembers | backend/app/ws/manager.py:17-26 | disconnecting removes every occurrence of the connection from its channel, keeps the order of the rest and touches no other channel |
| Broadcast.ConnectMembers | backend/app/ws/manager.py:10-15 | a connect puts the connection at the end of its channel and touches no other |
| Broadcast.EndOfBroadcast | backend/app/ws/manager.py:33-39 | when a broadcast ends, all members at its start were sent to, exactly those whose send failed are gone from the channel, other channels are untouched and no empty list is stored |
| Broadcast.DeadAreThoseWhoseSendFailed | backend/app/ws/manager.py:32-37 | over any run, what a broadcast holds for dead are the connections to which its sends raised, in order |
| Broadcast.DroppedIffSendFailed | backend/app/ws/manager.py:28-39 | at the end of a whole broadcast a connection leaves its channel if and only if a send to it raised, and the other channels are as they were |
| Broadcast.NobodyToSendTo | backend/app/ws/manager.py:30-31 | a broadcast to a channel that nobody is on does nothing |
| Broadcast.StepOnList | backend/app/ws/manager.py:13-24 | the object a broadcast iterates over is only ever appended to, and only while it is still bound |
| Broadcast.ListOfARun | backend/app/ws/manager.py:13-24 | over a run it gains exactly the connections that joined before the first rebinding |
| Broadcast.BroadcastRecipients | backend/app/ws/manager.py:28-37 | a complete broadcast sends to the members at its start, in order, and then to those that joined, in order, and to nobody else |
| Broadcast.SentExactlyOnce | backend/app/ws/manager.py:33-35 | a connection on the channel when the broadcast starts is sent to exactly once, also if it disconnects meanwhile |
| Broadcast.NobodyJoinsAfterARebind | backend/app/ws/manager.py:17-24 | once somebody disconnects, later joiners do not receive the broadcast under way |
| Broadcast.ConnectAddsOne | backend/app/ws/manager.py:10-15 | a connect adds one to the number of connections over all channels |
| Broadcast.DisconnectTakesAway | backend/app/ws/manager.py:17-26 | a disconnect takes from it the occurrences of the connection on its channel |
| WsManager.Filtered | backend/app/ws/manager.py:20-24 | the comprehension keeps every other connection, in order |
| WsManager.ConnectionManager.Connect | backend/app/ws/manager.py:10-15 | refines the step of the transition system: it appends in place and binds nothing if the channel exists |
| WsManager.ConnectionManager.Disconnect | backend/app/ws/manager.py:17-26 | refines its step: it binds a new list object and leaves the old one as it was |
| WsManager.ConnectionManager.Bind | backend/app/ws/manager.py:20 | binds the channel to another list object and touches none |
| WsManager.ConnectionManager.Unbind | backend/app/ws/manager.py:26 | unbinds the channel and touches no list |
| WsManager.ConnectionManager.GetConnectionCount | backend/app/ws/manager.py:41-45 | counts a channel's members, zero if and only if the channel is not stored, or those of all channels |
| WsManager.BroadcastTask.SendNext | backend/app/ws/manager.py:33-37 | refines the send step on the live list object: it sends to the next connection, marks it dead only if that raised, and changes nothing on the server |
| WsManager.BroadcastTask.Finish | backend/app/ws/manager.py:38-39 | drops exactly the dead from the channel, one after the other; the members at the start have all been sent to |
| RateLimit.RateLimiter.CleanOldEntries | backend/app/middleware/rate_limit.py:28-33 | replaces the key's list by its entries later than the cut-off |
| RateLimit.RateLimiter.IsAllowed | backend/app/middleware/rate_limit.py:35-43 | admits if and only if the pruned list has room, records only then, and touches no other key |
| RateLimit.RateLimiter.Remaining | backend/app/middleware/rate_limit.py:45-50 | what is left of the limit, never negative; prunes as it goes |
| RateLimit.ListAgreesWithLog | backend/app/middleware/rate_limit.py:28-33 | the pruned list and the full log of admissions agree above every cut-off that no reading has pruned past |
| RateLimit.ListIsTheWindow | backend/app/middleware/rate_limit.py:39-42 | after a call with the key's latest reading the list is exactly the admissions of the window that ends there |
| RateLimit.NeverMoreThanTheLimit | backend/app/middleware/rate_limit.py:35-43 | if readings are out of order by at most d, every window of length W - d, wherever it ends, holds at most max_requests admissions of a key |
| RateLimit.NeverMoreThanTheLimitInAnyWindow | backend/app/middleware/rate_limit.py:15-20 | with an orderly clock that is every window of the full length |
| RateLimit.RefusedOnlyWhenFull | backend/app/middleware/rate_limit.py:40-43 | a call with the key's latest reading is admitted if and only if the window that ends with it has room |
| RateLimit.KeysAreIndependent | backend/app/middleware/rate_limit.py:31-33 | a key's list and log are those of its own calls alone |
| RateLimit.SkewOverfills | backend/app/middleware/rate_limit.py:37-39 | for every limit and skew, a burst, a call one window later and one whose reading was taken the skew before that overfill every window longer than W - d |
| RateLimit.SafeWindowsIff | backend/app/middleware/rate_limit.py:37-43 | over all runs with skew d, every window of length len holds at most max_requests admissions if and only if len is at most W - d (nothing, when d reaches W) |
| RateLimit.SingleAdmissionsAreSpaced | backend/app/middleware/rate_limit.py:40-43 | with a limit of one and admissions alone, each admission is a full window after the one before, whatever the skew |
| RateLimit.SafeWindowsOfAdmissionsIff | backend/app/middleware/rate_limit.py:35-43 | over runs of is_allowed alone, if and only if len is at most W - d, or at most W for a limit of one |
| TenantGuard.BufferBody | backend/app/middleware/tenant_guard.py:129-162 | however the body is chunked, the replay holds all its bytes, and the part to inspect is empty if and only if the final length exceeds the limit or the body is empty |
| TenantGuard.ReadAll | backend/app/middleware/tenant_guard.py:154-159 | the application reads one complete request message and then only disconnects |
| TenantGuard.FirstForeign | backend/app/middleware/tenant_guard.py:105-108 | the loop finds the first name that is not the caller's own |
| TenantGuard.Call | backend/app/middleware/tenant_guard.py:84-127 | the verdict depends only on the bytes of the body, the content type and the query; the stream is untouched unless the body had to be read |
| TenantGuard.ChunkingIsInvisible | backend/app/middleware/tenant_guard.py:129-162 | two ways of cutting one body lead to the same verdict, and a forwarded application reads the whole body |
| TenantGuard.TruncationByDisconnectIsInvisible | backend/app/middleware/tenant_guard.py:137-140 | a client that disconnects in mid-body, or before any of it, is judged and replayed as if it had sent just that much |
| TenantGuard.LetThroughIff | backend/app/middleware/tenant_guard.py:55-75 | a request with a tenant is let through if and only if no non-empty query parameter is foreign, and, where the body is at most 1 MiB and said to be JSON, no object that the bytes load as, or that is an item of an array they load as, names a foreign workspace |
| TenantGuard.DenialNamesTheFirst | backend/app/middleware/tenant_guard.py:105-122 | a denial names the first foreign parameter of the query, or, if there is none, the name in the object or in the first item that is foreign |
| TenantGuard.OthersAreUntouched | backend/app/middleware/tenant_guard.py:85-101 | other protocols, public paths and callers without a workspace are passed on unread |
| TenantGuard.OversizedBodiesPass | backend/app/middleware/tenant_guard.py:161-162 | every body over the limit is forwarded whole, whatever it names, if the query names nobody else |
| TenantGuard.ForeignIff | backend/app/middleware/tenant_guard.py:119-122 | nothing foreign is found if and only if all names are the caller's, and what is found is a foreign one of them |
| Slugs.SlugifyIsSlug | backend/app/services/workspace_service.py:19-23 | a slug has only lower-case letters, digits and single hyphens, none at either end |
| Slugs.SlugifyJoinsTheWords | backend/app/services/workspace_service.py:19-23 | a slug is the runs of letters and digits of the lower-cased name, joined by single hyphens |
| Slugs.LowerIsByCharacter | backend/app/services/workspace_service.py:21 | lower-casing replaces each character by its own lower-case form |
| Slugs.SlugifyIsIdempotent | backend/app/services/workspace_service.py:19-23 | slugifying a slug changes nothing |
| Slugs.DecimalInjective | backend/app/services/workspace_service.py:51 | different suffixes print differently |
| Slugs.DecimalDenotes | backend/app/services/workspace_service.py:51 | a suffix is printed in decimal digits that denote it, without leading zero |
| Slugs.CandidateInjective | backend/app/services/workspace_service.py:50-51 | no candidate is probed twice, the bare slug included |
| Slugs.TriedAreDistinct | backend/app/services/workspace_service.py:44-51 | n probes are n different slugs, so the unbounded loop ends |
| Slugs.Workspaces.Create | backend/app/services/workspace_service.py:32-63 | the slug issued is the first candidate that is free, found in at most as many further probes as slugs are taken, and only it is added |
| Slugs.FirstFree | backend/app/services/workspace_service.py:43-51 | all candidates before the answer are taken and the answer is not |
| Slugs.IssuedSlugsAreDistinct | backend/app/services/workspace_service.py:43-51 | over every run of creations, whatever slugs were in use, no slug is issued twice and none that was in use |
| Slugs.InterleavedSlugsAreDistinct | backend/app/services/workspace_service.py:43-63 | so it is when creations await between probes and insert and registrations insert without probing, with the unique constraint of the column deciding |
| Slugs.InsertTakesTheFirstFreeOrFails | backend/app/services/workspace_service.py:43-61 | under such interleaving an insert is refused if and only if the slug was taken since it was found free, and otherwise takes the first candidate free at that moment |
| Slugs.AloneItFindsTheFirstFree | backend/app/services/workspace_service.py:43-61 | a search that nothing comes between finds the first free candidate and creates the workspace with it |
| Slugs.RegistrationTakesItsSlug | backend/app/services/auth_service.py:97-103 | a registration takes its slug unprobed, and a creation that had found it free is then refused |
| Slugs.SearchesAreBounded | backend/app/services/workspace_service.py:44-51 | and a search has never made more turns than there are slugs |
| Slugs.IssuedIsSlugIff | backend/app/services/workspace_service.py:50-51 | an issued slug has the promised form if and only if the name leaves a slug at all or the empty one is free |
| Slugs.EmptyNameInput | backend/app/services/workspace_service.py:50-51 | the second workspace with an empty name is given -1, which has not |
| Feed.DashboardActivity | backend/app/api/routes/dashboard.py:203-212 | collects the six truncated sources in order, sorts them stably by printed stamp, newest first, and cuts |
| Feed.RecentIff | backend/app/api/routes/dashboard.py:222-227 | a source contributes exactly its first limit rows, each with its own payload and its time or the clock's |
| Feed.DroppedIff | backend/app/api/routes/dashboard.py:226 | what it drops are exactly its dated rows behind those |
| Feed.SortByStampIsSort | backend/app/api/routes/dashboard.py:211 | sorting by the printed stamps is sorting by the moments they print |
| Feed.OutweighedIff | backend/app/api/routes/dashboard.py:226-227 | a row its source dropped meets enough merged rows that are no older if and only if the other sources outweigh the undated rows that crowded it out |
| Feed.CrowdedOutIff | backend/app/api/routes/dashboard.py:211-212 | a moment is not newer than any row of a full feed if and only if at least limit merged rows are no older than it |
| Feed.NothingNewerLeftOutIff | backend/app/api/routes/dashboard.py:200-201 | no dated row a source left out is strictly newer than a row of the feed, if and only if undated rows overtake none |
| Feed.FeedIsTheTopOfTheUnionIff | backend/app/api/routes/dashboard.py:200-201 | the feed's stamps are the top limit of the whole union, if and only if undated rows overtake none |
| Feed.ClockAheadSuffices | backend/app/api/routes/dashboard.py:142-143 | they overtake none when no dated run lies after the time of the request, in particular where every row is dated |
| Feed.UndatedRunsCrowdOutFutureOnes | backend/app/api/routes/dashboard.py:299-321 | two pipeline runs of which the later is lost |
| StableSort.SortSorts | backend/app/api/routes/dashboard.py:211 | the sort used as reference yields a permutation in descending order |
| StableSort.SortIsStable | backend/app/api/routes/dashboard.py:211 | rows with the same stamp keep the order in which they were collected |
| StableSort.SortedKeysIgnoreOrder | backend/app/api/routes/dashboard.py:203-211 | the sorted stamps do not depend on the order in which the rows were collected |
| StableSort.FrontIsAtLeastIff | backend/app/api/routes/dashboard.py:212 | the first n of the sorted list are all at least a key if and only if n rows are |
| StableSort.AddingLesserItems | backend/app/api/routes/dashboard.py:226 | rows that n others match or beat do not change the first n |
| JwtDecode.Utf8RoundTrip | frontend/src/lib/session.ts:45 | strict UTF-8 decoding, which refuses overlong forms and surrogates, recovers every text |
| JwtDecode.PercentRoundTrip | frontend/src/lib/session.ts:46-49 | writing every byte as two hex digits and decoding the escapes recovers every byte sequence |
| JwtDecode.SextetsRoundTrip | frontend/src/lib/session.ts:46 | regrouping bytes into sextets and back recovers them, for every length |
| JwtDecode.SwapAndPadIsStandard | frontend/src/lib/session.ts:41-42 | the alphabet swap and the computed padding turn the unpadded base64url form (section 2 of RFC 7515) of any bytes into their padded base64 form (section 4 of RFC 4648) |
| JwtDecode.AtobRoundTrip | frontend/src/lib/session.ts:46 | forgiving decoding of the padded form recovers the bytes |
| JwtDecode.SplitAtDot | frontend/src/lib/session.ts:37 | splitting takes off the part before the first dot |
| JwtDecode.DecodeRoundTrip | frontend/src/lib/session.ts:36-51 | for every text, the text that is parsed of a token that carries it is that text; for the empty one nothing is parsed |
| JwtDecode.BufferRoundTrip | frontend/src/lib/session.ts:51 | where there is no atob, the padded form decodes to the same bytes |
| JwtDecode.DecodeJwtParsesThePayload | frontend/src/lib/session.ts:36-56 | so decoding a token is parsing the text it carries, with and without atob, for every text and every parser that refuses the empty one |
| Html.EscapeSingle | backend/app/core/validators.py:179 | the five passes turn one character into its entity and leave any other |
| Html.PassesAreOneMap | backend/app/core/validators.py:178-179 | five passes in sequence are one simultaneous map of the characters |
| Html.NothingToStrip | backend/app/core/validators.py:183 | on text without angle brackets the tag pass is the identity |
| Html.SanitizedIsInert | backend/app/core/validators.py:162-183 | the result is that map, and has no angle bracket and no quote |
| Html.SanitizeLosesNothing | backend/app/core/validators.py:162-183 | decoding the entities recovers every input |
| Html.SanitizeIsInjective | backend/app/core/validators.py:162-183 | so different texts never become one |
| Html.StripsIffTag | backend/app/core/validators.py:159 | the tag pass changes a text if and only if it holds a tag: a left bracket, something without a right one, and a right one |
| Html.AsDocumentedIffNoTag | backend/app/core/validators.py:163-167 | the code agrees with stripping until no tag remains and then escaping if and only if the text holds no tag |
| Html.TaggedInputs | backend/app/core/validators.py:163-167 | every single tag comes through as text where the documented order leaves nothing |
| Html.AmpersandMustComeFirst | backend/app/core/validators.py:179 | with the ampersand replaced last, the five passes are that map on exactly the texts that hold no bracket and no quote |

## Left out

- Session.BoundedStaleness: does not cover API-key identities, whose workspace comes from a key row in a service that is not part of this model.
- Isolation.NonInterference: assumes of each statement that a query selects the scoped tables it reads, and that a write is to a scoped table, inserts rows the workspace owns under unused keys, assigns none to another, names no row outside the slice and shares no unique value with one; and of the database at the start that no row names another workspace's. `Coverage.AnsweredOnTheSliceIff`, `Isolation.UpdateReachesATenantIffItReparents` and `Isolation.AnswerDependsOnOthersIff` say exactly what happens without.
- TenantGuard.BufferBody: assumes that the stream contains a message that ends the body; on others the middleware waits.
- Batch.ProcessBatch: processors that raise and batch sizes of zero or less are not modelled.
- Raw SQL, Core statements and relationship loads, which the hook does not cover, and subqueries of the caller's own inside a condition.
- Cascades along keys other than the one that scopes a table (in the schema those lead to `users` only), and check constraints.
- Tables two hops away from a scoped table: the hook leaves them unscoped, and so does the model.
- Requests with no workspace in context: the hook stands aside.
- The log context variables set beside the tenant, and tasks that a request starts, which would begin with a copy of its context.
- Passwords, bcrypt and the bytes of a JWT: a token is its claims, and is valid if signed by the service.
- The first-in-first-out order of waiters on a semaphore: every order is allowed.
- `test_rule`, the incident timeline and the other alert routes.
- `persistSession`, `isTokenExpired` and `JSON.parse`.
- The 100-character limit on slugs, and the rollback of a creation whose insert is refused.
- JSON and query-string parsing, and the scan of the headers for a content type.
- Non-string arguments of `sanitize_html`, `sanitize_filename`, file sizes and magic bytes.
- Dashboard counters and their daily history; the texts of the feed's entries.
- Clients, user interface, media routes, migrations, caches and background tasks.
