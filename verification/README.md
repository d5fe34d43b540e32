# LEMS server core in Dafny

LEMS runs a guest list for an event. A Vue client lists the guests, checks them
in and manages a waiting list. An Express server keeps the guests in MongoDB
and keeps them in step with two Mailchimp audiences: the "database" list people
RSVP from and the "event" list of confirmed guests. This project models the
server's core and the client's store actions as pure Dafny functions, and
proves what they promise.

The modules follow the source:

- `Results` (result.dfy): the `Result` type, with `tryCatch`, `fold`, `map`, `flatMap` and the other combinators.
- `Collections` (collection.dfy): the generic collection over an in-memory store. It covers insert, `findOne`, `findById`, update, delete, aggregate and the cursor-paginated `find`.
- `Pagination` (pagination.dfy), `Ordering` (ordering.dfy) and `Strings` (strings.dfy): the `find` aggregation pipeline. It filters, sorts, counts, windows by a strict cursor and a limit, and computes the page flags.
- `Cursors`, `Paths`, `Routing` and `Resources`: the cursor types, the route-path builder, the handler-list router with its error mapping, and the memoised lazily acquired resource.
- `Cron`: the two-hour throttle that triggers the guest upsert.
- `Login`: the credential check, and its token (UTF-8, then base 64 per section 4 of RFC 4648).
- `GlobalDomain`: the ISO-date recogniser and the non-empty-string rule.
- `Guests`, `Mailchimp` and `GuestsCollection`: the guest record, the member mappers, and the guests collection with its event-day status override.
- `GuestLookup`: `fetchGuest`, `findGuest`, `addToWaitlist` and `checkInGuest`.
- `GuestCreation`: `subscribeGuest`, `createGuest` and `uploadGuests`.
- `GuestReports`: `getStats`, `countRsvp` and `findGuests`.
- `Sync`: `fetchMailchimpMembers`, `cleanGuestsDatabase` and `upsertGuestsDatabase`.
- `ClientActions`: the client store's actions.

Modelling conventions:

- A call into foreign code (the MongoDB driver, Mailchimp, axios) is an `Attempt`: it either `Returned` a value or `Threw` an exception. What the call answers is an input of the model.
- A thrown exception is an `Exception` value. `TryCatch` turns an `Attempt` into a `Result`, exactly as `Result.tryCatch` does.
- The database is a `Store`: rows in insertion order, each with a unique natural-number id, plus a `reachable` flag. When the flag is off, every driver call throws after the connection was made (see "Left out").
- The clock, the event-day test and the e-mail digest (MD5 in the source) are parameters.

Where the code does something other than it evidently intends:

- `createGuest` passes a second argument to `subscribeGuest`, which ignores it.
- Two call sites, in `checkInGuest` and `createGuest`, hand `update` a filter object where it takes an id. The model keeps both the code as written (`GuestLookup.CheckInAsWritten`, `GuestCreation.CreateGuestAsWritten`) and the evidently intended form (`GuestLookup.CheckIn`, `GuestCreation.CreateGuest`). See "Findings".
- `find` ignores an empty-string page cursor. `Collections.Find` follows the code; `Pagination.Paginate` is the corrected page. See "Findings".

## Model

| member | source | states |
|---|---|---|
| `Results.Result.UnsafeGetValue` | shared/Result.ts:73-80 | returns the value exactly on a success; on a failure it throws "Trying to get the value of a failed Result" |
| `Results.Result.UnsafeGetError` | shared/Result.ts:86-93 | returns the error exactly on a failure; on a success it throws "Trying to get the error of a succeeded Result" |
| `Results.Result.Fold` | shared/Result.ts:101-111 | calls the success continuation on the value or the failure continuation on the error, whichever arm the result is |
| `Results.Result.Bimap` | shared/Result.ts:119-127 | keeps the arm; maps the value with one function and the error with the other |
| `Results.Result.Map` | shared/Result.ts:134-136 | a success becomes `Success(fn(value))`; a failure keeps its error unaltered |
| `Results.Result.MapError` | shared/Result.ts:143-147 | a failure becomes `Failure(fn(error))`; a success keeps its value unaltered |
| `Results.Result.FlatMap` | shared/Result.ts:154-161 | a success continues with `fn(value)`; a failure short-circuits with its error |
| `Results.Result.FlatMapError` | shared/Result.ts:168-175 | a failure recovers with `fn(error)`; a success short-circuits with its value |
| `Results.Result.GetOrElse` | shared/Result.ts:182-184 | the success value, or the default computed from the error |
| `Results.TryCatch` | shared/Result.ts:49-59 | fails exactly when the operation throws, carrying the handler's mapping of the exception; otherwise succeeds with the returned value |
| `Results.ExactlyOneArm` | shared/Result.ts:61-67 | `isSuccess` and `isFailure` always disagree |
| `Results.Result.IsSuccess` | shared/Result.ts:61-63 | the success test; that it is the negation of `isFailure` is stated by `Results.ExactlyOneArm` |
| `Results.Result.IsFailure` | shared/Result.ts:65-67 | the failure test; stated together with `isSuccess` by `Results.ExactlyOneArm` |
| `Results.MapIdentity` | shared/Result.ts:134-136 | mapping the identity gives back the same result |
| `Results.MapComposition` | shared/Result.ts:134-136 | mapping `f` then `g` equals mapping their composition |
| `Results.FlatMapLeftIdentity` | shared/Result.ts:154-161 | `Success(a).flatMap(f)` is `f(a)` |
| `Results.FlatMapRightIdentity` | shared/Result.ts:154-161 | `flatMap` into `Success` gives back the same result |
| `Results.FlatMapAssociativity` | shared/Result.ts:154-161 | chaining `f` then `g` equals chaining the composed step |
| `Results.FlatMapFailureIgnoresContinuation` | shared/Result.ts:154-161 | a failure is returned unchanged whatever continuation is given |
| `Results.FlatMapErrorSuccessIgnoresRecovery` | shared/Result.ts:168-175 | a success is returned unchanged whatever recovery is given |
| `Results.MapIsFlatMapOfSuccess` | shared/Result.ts:134-147 | `map` equals `flatMap` followed by `Success`; `mapError` of the identity equals `flatMapError` into `Failure` |
| `Options.OrNull` | server/src/entitites/guest/createGuest.ts:42 | `s \|\| null` is present exactly when `s` is a non-empty string, and is then `s` |
| `Errors.Plain` | server/src/ServerError.ts:5-14 | a server error with the given status and message and no payload |
| `Cursors.CursorQuery.Order` | shared/Cursor.ts:41-61 | the order is ascending exactly for the ascending form of a request |
| `Cursors.EmptyCursor` | shared/Cursor.ts:25-36 | total 0, no start or end cursor, no previous or next page, no edges |
| `Cursors.EmptyCursorQuery` | shared/Cursor.ts:63-70 | an ascending request with no search text and no cursor, of `perPage` rows (20 by default) |
| `Cursors.FoldCursorQuery` | shared/Cursor.ts:72-81 | invokes exactly the case that matches the request's order |
| `Cursors.Limit` | server/src/database/Collection.ts:178-181 | the page size is `first` for an ascending request and `last` for a descending one |
| `Cursors.Boundary` | server/src/database/Collection.ts:172-176 | the cursor is `after` for an ascending request and `before` for a descending one |
| `Paths.Start` | server/src/routing/Path.ts:8-10 | renders as "/" |
| `Paths.ToString` | server/src/routing/Path.ts:24-26 | the rendered path; what it renders is stated by `Paths.Start`, `Paths.Literal`, `Paths.Param` and `Paths.BuildRenders` |
| `Paths.Append` | server/src/routing/Path.ts:12-22 | the root becomes "/x"; any other path gets "/x" appended |
| `Paths.Literal` | server/src/routing/Path.ts:12-16 | renders as "/fragment" below the root and "path/fragment" elsewhere |
| `Paths.Param` | server/src/routing/Path.ts:18-22 | renders as "/:name" below the root and "path/:name" elsewhere |
| `Paths.Text` | server/src/routing/Path.ts:20 | a parameter segment starts with ':' |
| `Paths.StepBelow` | server/src/routing/Path.ts:12-22 | below a non-root path, a segment is appended behind a slash and the path stays non-root |
| `Paths.BuildBelow` | server/src/routing/Path.ts:12-22 | building below a non-root path appends each segment behind a slash, in order |
| `Paths.BuildRenders` | server/src/routing/Path.ts:8-26 | a chain from `start()` renders as "/" followed by the slash-separated segments, unless the first segment is an empty literal |
| `Paths.EmptyLiteralAtRoot` | server/src/routing/Path.ts:12-16 | `start().literal("")` stays "/", so a following segment gives "/a" rather than "//a" |
| `Paths.MixedChain` | server/src/routing/Path.ts:8-26 | a concrete chain of literals and parameters renders as expected |
| `Routing.Make` | server/src/routing/Router.ts:69-71 | a new router has the given prefix and no handlers |
| `Routing.Add` | server/src/routing/Router.ts:95 | a copy with the same prefix and the handler appended last |
| `Routing.Get` | server/src/routing/Router.ts:73-96 | appends a restful GET handler; the prefix is kept |
| `Routing.Post` | server/src/routing/Router.ts:98-121 | appends a restful POST handler; the prefix is kept |
| `Routing.Put` | server/src/routing/Router.ts:123-146 | appends a restful PUT handler; the prefix is kept |
| `Routing.Delete` | server/src/routing/Router.ts:148-171 | appends a restful DELETE handler; the prefix is kept |
| `Routing.CustomRoute` | server/src/routing/Router.ts:180-197 | appends a custom handler for the verb; the prefix is kept |
| `Routing.ChainAppends` | server/src/routing/Router.ts:73-197 | a chain of builder calls keeps the prefix and lists the handlers in registration order |
| `Routing.MadeRouterHolds` | server/src/routing/Router.ts:69-71 | a router made from a prefix and then chained holds exactly the registered handlers |
| `Routing.HandleError` | server/src/routing/Router.ts:263-286 | a 500 server error, or any other error, gives a bare 500; another server error gives its status and `{ error: message }` |
| `Routing.Respond` | server/src/routing/Router.ts:213-223 | a resolved success is sent as JSON with 200; a failure and a rejection both go through `handleError` |
| `Routing.ErrorMessageExposedIff` | server/src/routing/Router.ts:263-286 | a message reaches the client exactly when it comes from a server error whose status is not 500; a body is omitted exactly on a 500 |
| `Routing.JsonIffSuccess` | server/src/routing/Router.ts:213-223 | JSON is sent exactly on a resolved success; a returned failure answers like the same error thrown |
| `Resources.Make` | server/src/resources/Resource.ts:18-33 | nothing is cached and acquire was never called |
| `Resources.MakeDefault` | server/src/resources/Resource.ts:15 | without a map function the resource is handed over as it is |
| `Resources.Acquire` | server/src/resources/Resource.ts:36 | a truthy cache is used as it is; otherwise acquire is called once, a resolved value is cached (even a falsy one), and a rejection leaves the cache alone |
| `Resources.Use` | server/src/resources/Resource.ts:35-38 | acquires if needed, hands the mapped resource to `op` and answers what `op` answers; a rejection at any step is the answer |
| `Resources.Release` | server/src/resources/Resource.ts:40-43 | acquires if needed and passes the resource to the release function; the cache is kept |
| `Resources.HeldCacheIsKept` | server/src/resources/Resource.ts:35-43 | once a truthy value is cached, no sequence of uses and releases acquires again or changes the cache |
| `Resources.AcquiresAtMostOncePerCall` | server/src/resources/Resource.ts:35-43 | a script of n calls acquires at most n times |
| `Resources.ThreeUsesAcquireOnce` | server/src/resources/Resource.test.ts:7-17 | three uses of a fresh resource whose acquire resolves truthy acquire once |
| `Resources.OpGetsMappedResource` | server/src/resources/Resource.ts:37 | `op` receives the mapped resource and its answer is returned unchanged |
| `Resources.DefaultMapIsIdentity` | server/src/resources/Resource.ts:15 | without a map function `op` receives the acquired value itself |
| `Resources.RejectedAcquireRetries` | server/src/resources/Resource.ts:36 | a rejected acquire caches nothing, so the next use calls acquire again |
| `Resources.ReleaseThenUseAcquiresOnce` | server/src/resources/Resource.ts:40-43 | release keeps what it acquired, so a later use does not acquire |
| `Resources.FalsyCacheIsReacquired` | server/src/resources/Resource.ts:36 | a cached falsy value counts as absent and is replaced by the next acquire |
| `Cron.Invoke` | server/src/cron.ts:13-39 | when not due: no upsert, state kept, `next` called. When due: the upsert runs; if it settles, the state records the time and `next` is called; if it rejects, the rejection propagates |
| `Cron.FirstCallRuns` | server/src/cron.ts:19-22 | with no run recorded (time 0), a call later than two hours runs the upsert |
| `Cron.NextIffSettled` | server/src/cron.ts:22-38 | `next` is called exactly when nothing was thrown; the upsert is called exactly when due |
| `Cron.WithinWindowIsIdle` | server/src/cron.ts:19-22 | within two hours of the last run nothing happens |
| `Cron.RunsDue` | server/src/cron.ts:19-32 | over a schedule with a monotone clock, every run is due relative to the starting state |
| `Cron.RunsAreSpaced` | server/src/cron.ts:19-32 | over a schedule with a monotone clock, consecutive runs start more than two hours apart |
| `Cron.TwoHourWindow` | server/src/cron.ts:22 | a 9:30 run blocks 11:29 and admits 11:31 |
| `Strings.LessIrreflexive` | server/src/database/Collection.ts:157-160 | the binary string order is irreflexive |
| `Strings.LessTransitive` | server/src/database/Collection.ts:157-160 | the binary string order is transitive |
| `Strings.LessTotal` | server/src/database/Collection.ts:157-160 | any two different strings are ordered |
| `Strings.LessAsymmetric` | server/src/database/Collection.ts:157-160 | the binary string order is asymmetric |
| `Strings.LowerChar` | server/src/database/Collection.ts:144-155 | ASCII capitals move to lower case; every other character is kept |
| `Strings.Lower` | shared/models/Guest.ts:13-15 | lower-cases each ASCII capital in place and keeps every other character, so the length is kept; `toLowerCase` folds more (see "Left out") |
| `Strings.ContainsIffOccurs` | server/src/database/Collection.ts:144-155 | the substring scan holds exactly when the needle occurs at some offset |
| `Sequences.Filter` | server/src/database/Collection.ts:144-155 | keeps exactly the elements passing the predicate, each with its multiplicity, in order |
| `Sequences.FilterFilter` | server/src/database/Collection.ts:144-176 | filtering by a stronger predicate after a weaker one is filtering once |
| `Sequences.FilterSuffix` | server/src/database/Collection.ts:172-176 | a filter rejecting a prefix and accepting the rest returns that rest |
| `Sequences.Take` | server/src/database/Collection.ts:178-181 | the first `min(n, length)` elements |
| `Ordering.Flip` | server/src/database/Collection.ts:162-170 | the opposite order |
| `Ordering.FlipBefore` | server/src/database/Collection.ts:162-170 | sorting before in the flipped order is sorting after in the original |
| `Ordering.BeforeIrreflexive` | server/src/database/Collection.ts:157-160 | no key sorts before itself |
| `Ordering.BeforeTransitive` | server/src/database/Collection.ts:157-160 | the sort order is transitive in both directions |
| `Ordering.BeforeTotal` | server/src/database/Collection.ts:157-160 | any two different keys are ordered |
| `Ordering.BeforeAsymmetric` | server/src/database/Collection.ts:157-160 | no two keys sort before each other |
| `Ordering.NotAfterTransitive` | server/src/database/Collection.ts:157-160 | "not after" is transitive |
| `Ordering.NotAfterThenBefore` | server/src/database/Collection.ts:157-160 | a ≤ b and b < c give a < c |
| `Ordering.BeforeThenNotAfter` | server/src/database/Collection.ts:157-160 | a < b and b ≤ c give a < c |
| `Ordering.InsertSorted` | server/src/database/Collection.ts:157-160 | inserting into a sorted sequence keeps it sorted and adds exactly that element |
| `Ordering.SortBy` | server/src/database/Collection.ts:157-160 | `$sort` on the key: the result is sorted in the requested order and is a permutation of the input |
| `Pagination.FilterSorted` | server/src/database/Collection.ts:157-176 | filtering a sorted sequence keeps it sorted |
| `Pagination.FirstKey` | server/src/database/Collection.ts:233-244 | the first row's key, absent exactly on an empty page |
| `Pagination.LastKey` | server/src/database/Collection.ts:233-244 | the last row's key, absent exactly on an empty page |
| `Pagination.Extreme` | server/src/database/Collection.ts:162-170 | `$min` or `$max` over the filtered rows: some row's key that no row sorts before, absent exactly when nothing matched |
| `Pagination.ExtremeDiffers` | server/src/database/Collection.ts:258-263 | the global first key differs from a row's key exactly when some row sorts strictly before that row |
| `Pagination.Matched` | server/src/database/Collection.ts:144-155 | no search text keeps every row; otherwise exactly the rows whose key contains the text, ignoring ASCII case, with their multiplicities |
| `Pagination.Remaining` | server/src/database/Collection.ts:172-176 | with a cursor, exactly the rows strictly past it (`$gt` ascending, `$lt` descending), still sorted; without one, every row |
| `Pagination.Edges` | server/src/database/Collection.ts:209-232 | one edge per row, its cursor the row's search key |
| `Pagination.SortedMatches` | server/src/database/Collection.ts:144-160 | the matched rows, sorted in the request's order, as a permutation |
| `Pagination.RemainingOf` | server/src/database/Collection.ts:144-176 | sorted, matched rows, each past the cursor |
| `Pagination.Window` | server/src/database/Collection.ts:172-181 | at most `limit` rows, sorted, matched and past the cursor |
| `Pagination.WindowFacts` | server/src/database/Collection.ts:172-181 | a prefix of the remaining rows keeps their order and per-row facts |
| `Pagination.RemainingMatch` | server/src/database/Collection.ts:144-155 | every remaining row passes the query match |
| `Pagination.Paginate` | server/src/database/Collection.ts:139-263 | the total counts every matched row; at most `limit` edges, each matched, past the cursor and keyed by its row, in order; start and end cursors are the first and last edges' keys |
| `Pagination.WindowEdges` | server/src/database/Collection.ts:209-232 | the edges of the window carry their rows' keys, are matched, past the cursor and ordered |
| `Pagination.PaginateFlags` | server/src/database/Collection.ts:233-263 | on a non-empty page, `hasPreviousPage` holds exactly when some matched row sorts strictly before the first edge, and `hasNextPage` exactly when one sorts strictly after the last; on an empty page both say whether anything matched |
| `Pagination.FirstPageHasNoPrevious` | server/src/database/Collection.ts:258-260 | a request without a cursor has no previous page |
| `Pagination.RemainingCovers` | server/src/database/Collection.ts:172-176 | a matched row is remaining exactly when it lies past the cursor |
| `Pagination.NothingAfterLast` | server/src/database/Collection.ts:261-263 | no matched row sorts strictly after the last remaining row |
| `Pagination.LastPageHasNoNext` | server/src/database/Collection.ts:261-263 | a non-empty page that takes every remaining row has no next page |
| `Pagination.LastRemainingIsExtreme` | server/src/database/Collection.ts:162-170 | the last remaining row carries the global extreme of the flipped order |
| `Pagination.PaginateParts` | server/src/database/Collection.ts:209-263 | the page's edges and `hasNextPage` in terms of the window |
| `Pagination.NothingBeforeLastFlipped` | server/src/database/Collection.ts:162-170 | in the flipped order no matched row sorts before the last remaining row |
| `Pagination.EmptyCollectionGivesEmptyCursor` | server/src/database/Collection.ts:139-263 | with no documents the page is the empty cursor |
| `Pagination.TotalCountIgnoresWindow` | server/src/database/Collection.ts:249-251 | the total depends only on the search text, never on the cursor, size or order |
| `Pagination.FilterAfterPrefix` | server/src/database/Collection.ts:172-176 | with distinct keys, the rows past the key of row n−1 are exactly the rows from n on |
| `Pagination.RemainingAfterCut` | server/src/database/Collection.ts:172-176 | moving the cursor to a remaining row's key keeps exactly the remaining rows after it |
| `Pagination.NextPageContinues` | server/src/database/Collection.ts:172-181 | with distinct keys, following `endCursor` serves exactly the rows after the current page: none skipped, none repeated |
| `Pagination.PageEndsAt` | server/src/database/Collection.ts:252-257 | a non-empty page is a prefix of the remaining rows, ending at `endCursor` |
| `Pagination.NextRemaining` | server/src/database/Collection.ts:172-176 | a request differing only in its cursor sees the same sorted rows, cut at that cursor |
| `Pagination.TiedKeysHideARow` | server/src/database/Collection.ts:172-176 | rows sharing a key are not told apart: with two rows "a" and a one-row page, no next page is reported and the cursor skips the second row |
| `Pagination.TruthyBoundary` | server/src/database/Collection.ts:172-176 | the skip stage drops an empty-string cursor as if none were given; order, search text and size are unchanged |
| `Pagination.PaginateAsWritten` | server/src/database/Collection.ts:139-263 | the pipeline as written agrees with the corrected one on every cursor except the empty string |
| `Pagination.EmptyKeyFirstPage` | server/src/database/Collection.ts:252-263 | on rows "" and "a", the first one-row page ends on the empty key and reports a next page |
| `Pagination.EmptyKeyNextPage` | server/src/database/Collection.ts:172-176 | past the empty-string cursor, the corrected next page is the row "a" |
| `Pagination.EmptyCursorRestartsAsWritten` | server/src/database/Collection.ts:172-176 | as written, following the empty-string cursor serves the first page again, while the corrected pipeline moves on |
| `Collections.EmptyStore` | server/src/database/Collection.ts:19-21 | an empty reachable store is valid |
| `Collections.IdIdentifiesRow` | server/src/database/Collection.ts:135-137 | in a valid store two rows with the same id are the same row |
| `Collections.FirstMatch` | server/src/database/Collection.ts:111-133 | the first row in natural order that passes the filter, or none exactly when no row passes |
| `Collections.DriverFindOne` | server/src/database/Collection.ts:114-116 | the query throws exactly when the database is unreachable |
| `Collections.NewRows` | server/src/database/Collection.ts:46-60 | the batch numbered with consecutive fresh ids, in the order given |
| `Collections.IdsOf` | server/src/database/Collection.ts:58-60 | the ids of the rows, in order |
| `Collections.DriverInsertMany` | server/src/database/Collection.ts:46-56 | `insertMany` throws exactly when unreachable or handed an empty batch |
| `Collections.DriverFindIds` | server/src/database/Collection.ts:74-87 | the re-read throws exactly when unreachable |
| `Collections.Replace` | server/src/database/Collection.ts:318-332 | the row with the id gets the new document; every other row stays. The source `$set`s every field but `_id`, which is the same thing for the complete records its callers pass |
| `Collections.DriverFindOneAndUpdate` | server/src/database/Collection.ts:318-341 | throws exactly when unreachable |
| `Collections.DriverFindOneAndDelete` | server/src/database/Collection.ts:355-365 | throws exactly when unreachable |
| `Collections.QueryFailed` | server/src/database/Collection.ts:117-122 | a failed query is the 500 "Unable to execute query on collection \"<name>\"" carrying the cause |
| `Collections.FindOne` | server/src/database/Collection.ts:111-133 | on a reachable store, succeeds exactly when some row passes the filter, answering a stored passing row; otherwise 404 "Document not found"; unreachable is a 500 |
| `Collections.FindById` | server/src/database/Collection.ts:135-137 | on a reachable store, succeeds exactly when a row has the id and answers it; otherwise 404; unreachable is a 500 |
| `Collections.FindByIdFindsRow` | server/src/database/Collection.ts:135-137 | every stored row is what `findById` answers for its id |
| `Collections.CheckInserted` | server/src/database/Collection.ts:46-72 | a thrown insert is a 500 "Unable to insert documents…"; a wrong number of ids is a 500 "Failed to insert document(s)…"; otherwise the ids |
| `Collections.Reread` | server/src/database/Collection.ts:74-87 | a thrown re-read is a 500 "Unable to execute find…"; otherwise the rows |
| `Collections.FirstInserted` | server/src/database/Collection.ts:91-107 | the first re-read row; a failed or empty re-read is the one 500 "Unable to find inserted document…" |
| `Collections.InsertOutcome` | server/src/database/Collection.ts:34-109 | succeeds exactly when the insert returned one id per document and the re-read returned, answering the re-read rows |
| `Collections.InsertOneOutcome` | server/src/database/Collection.ts:34-109 | succeeds exactly when one id came back and the re-read found a row, answering it |
| `Collections.RereadFindsAppended` | server/src/database/Collection.ts:74-87 | the re-read after an insert finds exactly the appended rows, in insertion order |
| `Collections.InsertAllAnswer` | server/src/database/Collection.ts:34-90 | inserting a non-empty batch appends it with fresh ids and answers the appended rows |
| `Collections.InsertAll` | server/src/database/Collection.ts:34-109 | an empty batch or an unreachable store is left unchanged with a 500; otherwise the batch is appended with consecutive fresh ids (the answer is stated by `Collections.InsertAllRoundTrip`) |
| `Collections.InsertOne` | server/src/database/Collection.ts:34-109 | an unreachable store is left unchanged with a 500; otherwise the document is appended with the next id (the answer is stated by `Collections.InsertOneRoundTrip`) |
| `Collections.AppendKeepsValid` | server/src/database/Collection.ts:46-56 | appending rows numbered from the next id keeps ids unique |
| `Collections.InsertAllRoundTrip` | server/src/database/Collection.ts:34-90 | an insert answers the stored rows in the order given, each with its document, and keeps the store valid |
| `Collections.InsertAllThenFind` | server/src/database/Collection.ts:34-137 | after an insert, `findById` finds each answered row |
| `Collections.AppendedRowsFound` | server/src/database/Collection.ts:135-137 | each appended row is found by its id |
| `Collections.InsertOneRoundTrip` | server/src/database/Collection.ts:91-107 | inserting one document answers the stored row, which `findById` then finds |
| `Collections.InsertAllFails` | server/src/database/Collection.ts:46-56 | an empty batch or an unreachable store changes nothing and fails with "Unable to insert documents in collection" |
| `Collections.ModifiedOutcome` | server/src/database/Collection.ts:343-349 | an answer not acknowledged or without a document is 404 "Document not found"; otherwise the modified row |
| `Collections.ModifyAttempt` | server/src/database/Collection.ts:318-341 | a throw is a 500 with the given message and the cause; otherwise the driver's answer |
| `Collections.StoreAfter` | server/src/database/Collection.ts:318-341 | a throw leaves the store as it was |
| `Collections.Update` | server/src/database/Collection.ts:312-350 | an update never adds or removes rows; on an unreachable store nothing changes and the answer is the 500 "Unable to update a document in collection …" with the cause; a success answers the row with that id and the new document |
| `Collections.FindByIdAbsent` | server/src/database/Collection.ts:126-132 | with no row carrying the id, `findById` answers 404 "Document not found" |
| `Collections.FindByIdAgrees` | server/src/database/Collection.ts:135-137 | two stores holding the same rows with an id answer `findById` of it alike |
| `Collections.ReplaceKeepsValid` | server/src/database/Collection.ts:321-332 | replacing a document keeps ids unique (the `_id` is never set) |
| `Collections.UpdateAnswer` | server/src/database/Collection.ts:312-350 | updating an existing id replaces that row's document only and answers the new row (`returnDocument: 'after'`) |
| `Collections.ReplaceThenFind` | server/src/database/Collection.ts:312-350 | after the replacement `findById(id)` finds the new row |
| `Collections.ReplaceKeepsOthers` | server/src/database/Collection.ts:312-350 | the replacement changes nothing `findById` answers for another id |
| `Collections.UpdateThenFind` | server/src/database/Collection.ts:312-350 | updating an existing id answers the new row, `findById` finds it, the store stays valid and every other id answers as before |
| `Collections.UpdateMissing` | server/src/database/Collection.ts:343-349 | updating a missing id changes nothing and answers 404 |
| `Collections.UpdateWithFilterObject` | server/src/database/Collection.ts:312-350 | handed a filter object instead of an id, `update` matches nothing: 404 and no change (500 when unreachable) |
| `Collections.Delete` | server/src/database/Collection.ts:352-374 | on an unreachable store nothing changes and the answer is the 500 "Unable to delete a document in collection …" with the cause; on a reachable store the only failure is 404 "Document not found", with nothing changed; a success answers a stored row with that id |
| `Collections.DeleteMissing` | server/src/database/Collection.ts:352-374 | deleting an id no row carries answers 404 "Document not found" and changes nothing |
| `Collections.DeleteAnswer` | server/src/database/Collection.ts:352-374 | deleting an existing id answers that row and keeps every other row |
| `Collections.DeleteThenFind` | server/src/database/Collection.ts:352-374 | after deleting an existing id there is one row fewer, that id is a 404, and every other id answers as before |
| `Collections.DeleteKeepsValid` | server/src/database/Collection.ts:352-374 | deleting keeps ids unique |
| `Collections.DeleteKeepsOthers` | server/src/database/Collection.ts:352-374 | deleting keeps every row with another id |
| `Collections.RemovesOneRow` | server/src/database/Collection.ts:352-374 | deleting an existing id removes exactly one row |
| `Collections.AggregationFailed` | server/src/database/Collection.ts:302-307 | a failed aggregation is the 500 "Unable to perform aggregation on collection \"<name>\"" carrying the cause |
| `Collections.Aggregate` | server/src/database/Collection.ts:294-310 | the pipeline's rows, or the 500 when it throws or the database is unreachable |
| `Collections.FirstFacet` | server/src/database/Collection.ts:269-290 | the first aggregation row; an empty answer is a 500 "Empty response for find…" |
| `Collections.FindPipeline` | server/src/database/Collection.ts:139-263 | the pagination pipeline as written, failing on a non-positive `$limit`; what it answers is stated by `Collections.Find` |
| `Collections.Find` | server/src/database/Collection.ts:139-292 | on a reachable store with a positive page size, the page the pipeline computes as written, which drops an empty-string cursor; for any other cursor that is the corrected page; otherwise the aggregation's 500 |
| `Collections.FindOnEmptyStore` | server/src/database/Collection.ts:277-290 | an empty collection answers the empty page |
| `Login.EncodeChar` | server/src/entitites/user/loginUser.ts:26-30 | a code point is one to four UTF-8 bytes |
| `Login.Utf8` | server/src/entitites/user/loginUser.ts:26-30 | between one and four bytes per character |
| `Login.SequenceLength` | server/src/entitites/user/loginUser.ts:26-30 | a lead byte announces one to four bytes |
| `Login.DecodeEncodeChar` | server/src/entitites/user/loginUser.ts:26-30 | decoding one encoded code point gives it back |
| `Login.Utf8RoundTrip` | server/src/entitites/user/loginUser.ts:26-30 | UTF-8 decoding inverts UTF-8 encoding for every string |
| `Login.Value` | server/src/entitites/user/loginUser.ts:26-30 | an alphabet letter's value is the index whose letter it is |
| `Login.ValueOfLetter` | server/src/entitites/user/loginUser.ts:26-30 | every index's letter has that value |
| `Login.Encode` | server/src/entitites/user/loginUser.ts:26-30 | base 64 with padding: four characters per started group of three bytes |
| `Login.GroupRoundTrip` | server/src/entitites/user/loginUser.ts:26-30 | four 6-bit values built from three bytes give the three bytes back |
| `Login.DecodeOne` | server/src/entitites/user/loginUser.ts:26-30 | one trailing byte round-trips through two letters and two pads |
| `Login.DecodeTwo` | server/src/entitites/user/loginUser.ts:26-30 | two trailing bytes round-trip through three letters and a pad |
| `Login.DecodeGroupThen` | server/src/entitites/user/loginUser.ts:26-30 | a full group decodes to its bytes ahead of whatever follows |
| `Login.DecodeEncode` | server/src/entitites/user/loginUser.ts:26-30 | base 64 decoding inverts the encoding for every byte sequence |
| `Login.LoginUser` | server/src/entitites/user/loginUser.ts:18-35 | succeeds exactly when both username and password equal the configured ones; otherwise 401 "Invalid credentials". The answer is the token itself, which the source wraps as `{ accessToken }` |
| `Login.Token` | server/src/entitites/user/loginUser.ts:26-29 | the base 64 form of the UTF-8 bytes of "username:password"; stated by `Login.TokenDecodesToCredentials` and `Login.KnownToken` |
| `Login.TokenDecodesToCredentials` | server/src/entitites/user/loginUser.test.ts:21-26 | the token of a successful login decodes, through base 64 and UTF-8, back to "username:password" |
| `Login.CaseMatters` | server/src/entitites/user/loginUser.ts:22-25 | credentials differing only in letter case are refused |
| `Login.AsciiBytes` | server/src/entitites/user/loginUser.ts:26-30 | text below U+0080 is one byte per character, its code |
| `Login.KnownBytes` | server/src/entitites/user/loginUser.ts:26-30 | the UTF-8 bytes of "user:pass" |
| `Login.KnownGroups` | server/src/entitites/user/loginUser.ts:26-30 | those bytes encode as three full groups |
| `Login.KnownLetters` | server/src/entitites/user/loginUser.ts:26-30 | the three groups are "dXNlcjpwYXNz" |
| `Login.KnownToken` | server/src/entitites/user/loginUser.ts:26-30 | the token for user "user" and password "pass" is "dXNlcjpwYXNz" |
| `GlobalDomain.MatchesPrefixPointwise` | server/src/globalDomain.ts:3-4 | a start-anchored fixed-length match is a position-by-position match of a long enough string |
| `GlobalDomain.IsIsoDate` | server/src/globalDomain.ts:3-4 | `isoPattern.test`; what it accepts is stated by `GlobalDomain.IsIsoDateShape`, `GlobalDomain.DecidedByPrefix` and `GlobalDomain.TrailingTextAccepted` |
| `GlobalDomain.IsIsoDateShape` | server/src/globalDomain.ts:3-4 | the recogniser accepts exactly the strings whose first characters have the pattern's shape, with either offset form; the `.` takes a single UTF-16 code unit, as the pattern has no `u` flag |
| `GlobalDomain.TrailingTextAccepted` | server/src/globalDomain.ts:3-4 | with no end anchor, anything may follow an accepted string |
| `GlobalDomain.DecidedByPrefix` | server/src/globalDomain.ts:3-4 | acceptance is decided by the first 29 characters |
| `GlobalDomain.AnySeparator` | server/src/globalDomain.ts:3-4 | the unescaped `.` before the milliseconds admits any single code unit but a line terminator |
| `GlobalDomain.LineTerminatorSeparator` | server/src/globalDomain.ts:3-4 | a line terminator in that position is refused |
| `GlobalDomain.WideSeparatorRefused` | server/src/globalDomain.ts:3-4 | a character outside the Basic Multilingual Plane in that position is refused: the `.` takes its high surrogate and `\d` then meets the low one |
| `GlobalDomain.EmojiSeparatorRefused` | server/src/globalDomain.ts:8-10 | "2020-01-01T00:00:00😀000Z" is refused with "Invalid ISO date" |
| `GlobalDomain.OutOfRangeFieldsAccepted` | server/src/globalDomain.ts:3-4 | only leading digits are range-checked: month 19, day 39 and hour 29 pass |
| `GlobalDomain.NoMillisecondsRefused` | server/src/globalDomain.ts:3-4 | a time without milliseconds is refused |
| `GlobalDomain.DigitChar` | server/src/globalDomain.ts:3-4 | the decimal digit character of a value below 10 |
| `GlobalDomain.Canonical` | server/src/globalDomain.ts:8-10 | the `toISOString` rendering of an instant is 24 characters |
| `GlobalDomain.ZuluAccepted` | server/src/globalDomain.ts:3-4 | a 24-character string meeting every class, with a single code unit at the `.`, and ending in 'Z' is accepted |
| `GlobalDomain.CanonicalAccepted` | server/src/globalDomain.ts:3-10 | every `toISOString` rendering of an instant in the years 1000 to 2999 is a valid ISO date |
| `GlobalDomain.FarYearRefused` | server/src/globalDomain.ts:3-4 | a rendering with a year from 3000 on is refused |
| `GlobalDomain.ParseIsoDate` | server/src/globalDomain.ts:8-10 | succeeds with the string itself exactly when the recogniser accepts it; otherwise "Invalid ISO date" |
| `GlobalDomain.ParseNonEmpty` | server/src/globalDomain.ts:6 | succeeds with the string itself exactly when it has at least one character |
| `GlobalDomain.IsoDateIsNonEmpty` | server/src/globalDomain.ts:6-10 | a valid ISO date is also a valid non-empty string |
| `Mailchimp.MergeField` | server/src/entitites/guest/utils/mailchimpDatabaseListMemberToGuest.ts:19-28 | present exactly when the member carries the tag, with its value |
| `Guests.HashEmail` | shared/models/Guest.ts:13-15 | the digest of the lower-cased address: every address with the same ASCII lower-case form has the same hash |
| `Guests.LowerIdempotent` | shared/models/Guest.ts:13-15 | lower-casing twice is lower-casing once |
| `Guests.HashIgnoresCase` | shared/models/Guest.ts:13-15 | addresses differing only in the case of ASCII letters hash alike (see "Left out" for other letters) |
| `Guests.Basic` | server/src/entitites/guest/utils/mailchimpDatabaseListMemberToGuest.ts:9-18 | an RSVP guest with the member's address and names, the given hash and source, no company and no account manager |
| `Guests.DatabaseMemberToGuest` | server/src/entitites/guest/utils/mailchimpDatabaseListMemberToGuest.ts:5-30 | the basic guest, with the company from a non-empty AZIENDA and the account manager from a non-empty REFERENTE |
| `Guests.RsvpMemberToGuest` | server/src/entitites/guest/findGuest.ts:25-41 | the basic guest, with the company from a non-empty MMERGE7 |
| `Guests.SyncMemberToGuest` | server/src/entitites/guest/syncGuestsDatabase.ts:101-114 | hashed from the address, source SYNC, status RSVP, company from MMERGE4 or null, both timestamps `now` |
| `Guests.GuestToListMember` | server/src/entitites/guest/utils/subscribeGuest.ts:80-92 | a subscribed member with FNAME, LNAME and the company as MMERGE3 |
| `Guests.MemberRoundTrip` | server/src/entitites/guest/utils/subscribeGuest.ts:80-92 | a member mapped to a guest and back keeps its address and names; the company travels exactly when AZIENDA is non-empty |
| `Guests.MappersAgreeOnIdentity` | server/src/entitites/guest/findGuest.ts:25-41 | the two lookup mappers differ only in the company and account manager |
| `GuestsCollection.FindByHash` | server/src/entitites/guest/utils/fetchGuest.ts:18 | on a reachable store, succeeds exactly when a guest has the hash and answers one; otherwise 404; unreachable is a 500 |
| `GuestsCollection.ForceStatus` | server/src/entitites/guest/guestsCollection.ts:37-42 | each guest keeps its fields, and its status becomes CHECKED_IN on the event day |
| `GuestsCollection.Dated` | server/src/entitites/guest/guestsCollection.ts:37-40 | on the event day the status is CHECKED_IN; on any other day the guest is unchanged; no other field ever changes |
| `GuestsCollection.ForceStatusIdempotent` | server/src/entitites/guest/guestsCollection.ts:37-42 | off the event day the override is the identity; applying it twice is applying it once |
| `GuestsCollection.FirstGuest` | server/src/entitites/guest/guestsCollection.ts:45-59 | the first inserted guest; none is a 500 "Unable to insert guest"; an insert failure passes through |
| `GuestsCollection.InsertGuests` | server/src/entitites/guest/guestsCollection.ts:25-46 | an empty batch or an unreachable store is left unchanged with a 500; otherwise the batch, after the status override, is appended with fresh ids |
| `GuestsCollection.InsertGuest` | server/src/entitites/guest/guestsCollection.ts:25-59 | an unreachable store is left unchanged with a 500; otherwise the guest, checked in on the event day, is appended with the next id (the answer is stated by `GuestsCollection.InsertGuestAnswer`) |
| `GuestsCollection.InsertGuestAnswer` | server/src/entitites/guest/guestsCollection.ts:25-60 | inserting one guest appends it with the next id, checked in on the event day, answers it, and keeps the store valid |
| `GuestsCollection.InsertGuestRoundTrip` | server/src/entitites/guest/guestsCollection.ts:25-60 | a guest with a new hash is what a lookup by that hash finds after the insert |
| `GuestsCollection.InsertGuestsRoundTrip` | server/src/entitites/guest/guestsCollection.ts:25-46 | inserting an array answers the stored guests in order, each with the override, appended to the store |
| `GuestsCollection.CreateIndexes` | server/src/entitites/guest/guestsCollection.ts:68-89 | succeeds exactly when the index creation returns; otherwise 500 "Unable to create index on guests collection" |
| `GuestLookup.RemoteMember` | server/src/entitites/guest/utils/fetchGuest.ts:25-50 | a thrown lookup is 404 "MailChimp subscriber not found"; a non-member answer is 500 "Error in getting subscriber from MailChimp"; otherwise the member |
| `GuestLookup.FetchGuest` | server/src/entitites/guest/utils/fetchGuest.ts:10-62 | a local hit is answered as it is; a local error other than 404 is answered as it is; only on a local 404 is the list member fetched, mapped and inserted |
| `GuestLookup.LocalHitIgnoresRemote` | server/src/entitites/guest/utils/fetchGuest.ts:20-59 | a guest found locally is answered whatever Mailchimp would say, and the store is unchanged |
| `GuestLookup.LocalErrorIgnoresRemote` | server/src/entitites/guest/utils/fetchGuest.ts:21-24 | a local error other than 404 is answered unchanged without asking Mailchimp |
| `GuestLookup.FetchTwiceFindsLocally` | server/src/entitites/guest/utils/fetchGuest.ts:10-62 | once fetched from the list, fetching again finds the guest locally and changes nothing |
| `GuestLookup.FindGuest` | server/src/entitites/guest/findGuest.ts:18-43 | a guest stored under the address's hash is answered with nothing changed; the store changes only after a local 404 (the fetched guest is stated by `GuestLookup.FindGuestFromList`) |
| `GuestLookup.FindGuestIgnoresCase` | server/src/entitites/guest/findGuest.ts:18-43 | the case of ASCII letters in the address does not change `findGuest`'s answer or effect (see "Left out" for other letters) |
| `GuestLookup.FindGuestFromList` | server/src/entitites/guest/findGuest.ts:18-43 | a guest only on the database list is stored as an RSVP from source RSVP, with the MMERGE7 company and no account manager |
| `GuestLookup.TagWaiting` | server/src/entitites/guest/addToWaitlist.ts:44-71 | a returned tag call answers the guest; a throw is 500 "Unable to set tag on source list for waiting guest" |
| `GuestLookup.WaitingGuest` | server/src/entitites/guest/addToWaitlist.ts:29-38 | the list member mapped with the given hash, AZIENDA and REFERENTE, with status WAITING |
| `GuestLookup.AddToWaitlist` | server/src/entitites/guest/addToWaitlist.ts:19-75 | fetches with the waiting mapper; a failure or a guest not waiting is answered as fetched; a waiting guest gets the tag |
| `GuestLookup.NoTagUnlessWaiting` | server/src/entitites/guest/addToWaitlist.ts:40-43 | unless the guest is waiting, the tag call's answer cannot matter |
| `GuestLookup.RemoteGuestWaits` | server/src/entitites/guest/addToWaitlist.ts:26-73 | a guest known only to the list is stored WAITING and tagged; on the event day the insert checks it in and no tag is set |
| `GuestLookup.LocalGuestUnchanged` | server/src/entitites/guest/addToWaitlist.ts:26-43 | a stored guest that is not waiting is answered unchanged and the store stays as it was |
| `GuestLookup.CheckInError` | server/src/entitites/guest/checkInGuest.ts:34-40 | a 404 becomes "Guest not found" with its payload; any other error passes through |
| `GuestLookup.CheckIn` | server/src/entitites/guest/checkInGuest.ts:17-41 | a failed lookup is answered through the 404 rewording; a found guest is updated by its id to CHECKED_IN with every other field kept |
| `GuestLookup.CheckInStoredGuest` | server/src/entitites/guest/checkInGuest.ts:17-41 | checking in a stored guest answers it CHECKED_IN, and a lookup by id finds the checked-in guest |
| `GuestLookup.CheckInUnknownGuest` | server/src/entitites/guest/checkInGuest.ts:20-22 | an unknown hash is 404 "Guest not found" and nothing changes |
| `GuestLookup.CheckInAsWritten` | server/src/entitites/guest/checkInGuest.ts:24-32 | as written, agrees with the corrected check-in whenever the lookup fails |
| `GuestLookup.CheckInAsWrittenMissesStoredGuest` | server/src/entitites/guest/checkInGuest.ts:24-32 | as written, checking in a stored guest answers "Guest not found" and changes nothing, while the corrected form succeeds |
| `GuestCreation.AddOutcome` | server/src/entitites/guest/utils/subscribeGuest.ts:47-74 | succeeds with the guest exactly when the addition answers a member; a throw is 500 "Unable to add guest to the destination list"; a non-member answer is 500 "Error in adding guest to destination list" |
| `GuestCreation.Subscribe` | server/src/entitites/guest/utils/subscribeGuest.ts:10-78 | a guest already on the event list is answered as it is; any other lookup outcome, a throw included, leads to adding it |
| `GuestCreation.MemberIsNotAddedAgain` | server/src/entitites/guest/utils/subscribeGuest.ts:44-45 | a member already on the list is never added: what adding would answer cannot matter |
| `GuestCreation.SubscribeAddsMissingMember` | server/src/entitites/guest/utils/subscribeGuest.ts:46-75 | a guest not on the list is subscribed exactly when the addition answers a member |
| `GuestCreation.Overridden` | server/src/entitites/guest/createGuest.ts:85-92 | `{ ...guest, ...body }`: the body's fields win; hash, source, status, referrer and timestamps are kept |
| `GuestCreation.NewGuest` | server/src/entitites/guest/createGuest.ts:72-79 | a new RSVP guest from the body with an empty company as null, the given source and referrer |
| `GuestCreation.BodySubscriber` | server/src/entitites/guest/createGuest.ts:36-45 | the subscription carries the body's names and address, the address's hash, and an empty company as null |
| `GuestCreation.CreateGuest` | server/src/entitites/guest/createGuest.ts:22-104 | a guest not found locally, for whatever reason, is subscribed first, and a failed subscription is the answer; otherwise the guest is saved by referral or by hand |
| `GuestCreation.Create` | server/src/entitites/guest/createGuest.ts:22-104 | an unreachable store is left unchanged with a failure; a stored guest is saved without any subscription call; a failed subscription of a new address is the answer |
| `GuestCreation.SaveGuest` | server/src/entitites/guest/createGuest.ts:53-103 | an unknown referrer's error is the answer, with nothing changed; a saved stored guest keeps its id and hash and takes the body's names and address, with source REFERRER and the referrer's id when referred; an unreachable store is unchanged |
| `GuestCreation.SaveExisting` | server/src/entitites/guest/createGuest.ts:85-92 | as written the save changes nothing and fails; the corrected save answers the stored guest's id with the new document; an unreachable store is unchanged |
| `GuestCreation.CreateGuestAsWritten` | server/src/entitites/guest/createGuest.ts:22-104 | as written, agrees with the corrected creation whenever the address is not found locally |
| `GuestCreation.CreateNewManualGuest` | server/src/entitites/guest/createGuest.ts:93-100 | a new address without referrer, once subscribed, is stored as a MANUAL RSVP guest that a lookup by hash then finds |
| `GuestCreation.FailedSubscriptionStoresNothing` | server/src/entitites/guest/createGuest.ts:31-53 | a new address whose subscription fails stores nothing and answers the subscription's error |
| `GuestCreation.CreateExistingGuest` | server/src/entitites/guest/createGuest.ts:85-92 | a stored address is not subscribed again; without referrer it takes the body's fields and keeps its id, hash, source and status |
| `GuestCreation.ReferExistingGuest` | server/src/entitites/guest/createGuest.ts:61-70 | a stored referred guest takes the body's fields, source REFERRER and the referrer's id, keeping its own id |
| `GuestCreation.CreateExistingGuestAsWritten` | server/src/entitites/guest/createGuest.ts:85-92 | as written, creating an already stored address answers "Document not found" and changes nothing |
| `GuestCreation.UnknownReferrer` | server/src/entitites/guest/createGuest.ts:56-61 | a truthy referrer address that is not stored stops the creation with 404, after the subscription |
| `GuestCreation.CreateReferredGuest` | server/src/entitites/guest/createGuest.ts:71-81 | a referred new guest is inserted with source REFERRER and the referrer's id |
| `GuestCreation.RowMember` | server/src/entitites/guest/uploadGuests.ts:33-39 | an uploaded row is subscribed with its names and address, an empty company as null |
| `GuestCreation.RowGuest` | server/src/entitites/guest/uploadGuests.ts:53-61 | an uploaded row is stored hashed from its address, source UPLOAD, status RSVP, no account manager |
| `GuestCreation.RowMembers` | server/src/entitites/guest/uploadGuests.ts:33-39 | one list member per row, in order |
| `GuestCreation.RowGuests` | server/src/entitites/guest/uploadGuests.ts:53-61 | one guest per row, in order |
| `GuestCreation.Report` | server/src/entitites/guest/uploadGuests.ts:68-75 | the processed count is the number of rows; uploaded is created plus updated; the other counts are the batch's |
| `GuestCreation.UploadGuests` | server/src/entitites/guest/uploadGuests.ts:19-83 | a body that does not parse is 400 "Invalid data format"; a thrown batch is a 500 and stores nothing; otherwise the rows are inserted and the batch's counts answered |
| `GuestCreation.UploadStoresEveryRow` | server/src/entitites/guest/uploadGuests.ts:50-66 | uploading rows appends one guest per row in order, keeps the store valid, and answers the batch's counts |
| `GuestCreation.EmptyUploadFails` | server/src/entitites/guest/uploadGuests.ts:50-66 | an empty file is subscribed as an empty batch, then fails to insert with a 500, storing nothing |
| `GuestReports.CountWhere` | server/src/entitites/guest/getStats.ts:23-46 | a count never exceeds the number of guests |
| `GuestReports.CountSplits` | server/src/entitites/guest/getStats.ts:23-46 | the checked-in and not-checked-in counts add up to every guest |
| `GuestReports.CountIsCardinality` | server/src/entitites/guest/getStats.ts:23-46 | a count is the size of the set of guests whose status is counted |
| `GuestReports.FirstStats` | server/src/entitites/guest/getStats.ts:77-90 | the first aggregation document; none is 500 "Unable to get stats: received empty array from aggregation" |
| `GuestReports.GetStats` | server/src/entitites/guest/getStats.ts:14-91 | an unreachable store fails with the aggregation's 500 |
| `GuestReports.StatsAddUp` | server/src/entitites/guest/getStats.ts:14-91 | the total is every guest, checked-in is the number of CHECKED_IN guests, and checked-in plus not-checked-in is the total |
| `GuestReports.StatsPipeline` | server/src/entitites/guest/getStats.ts:15-75 | the one `$facet` document; its counts are stated by `GuestReports.StatsAddUp` |
| `GuestReports.CheckInMovesCount` | server/src/entitites/guest/getStats.ts:23-46 | checking in one guest moves it from the not-checked-in count to the checked-in one, the total unchanged |
| `GuestReports.CountRsvp` | server/src/entitites/guest/countRsvp.ts:12-23 | succeeds exactly when the database answers; otherwise 500 "Unable to count RSVP guests". The answer is the number itself, which the source wraps as `{ count }` |
| `GuestReports.CountRsvpCounts` | server/src/entitites/guest/countRsvp.ts:17 | the count is the number of RSVP guests |
| `GuestReports.InsertChangesCount` | server/src/entitites/guest/countRsvp.ts:17 | inserting a guest raises the count by one exactly when it is stored as an RSVP |
| `GuestReports.FindGuests` | server/src/entitites/guest/findGuests.ts:12-27 | a reachable store and a positive page size give a page |
| `GuestReports.FullName` | server/src/entitites/guest/findGuests.ts:16 | the first name, one space and the last name, each recoverable from the key |
| `GuestReports.FoundGuestsMatch` | server/src/entitites/guest/findGuests.ts:12-27 | the total counts the matching guests; each edge's cursor is its guest's full name, which contains the search text ignoring case |
| `GuestReports.UnfilteredTotal` | server/src/entitites/guest/findGuests.ts:12-27 | without search text the total is every guest |
| `Sync.MoreFuelSameAnswer` | server/src/entitites/guest/utils/fetchMailchimpMembers.ts:13-39 | an answer reached within some number of requests stays the answer when more are allowed |
| `Sync.FetchMembers` | server/src/entitites/guest/utils/fetchMailchimpMembers.ts:13-39 | the only error is the 500 "Unable to get memebers from MailChimp"; the members gathered include at least the accumulator |
| `Sync.FetchAll` | server/src/entitites/guest/utils/fetchMailchimpMembers.ts:9-43 | the only error is the 500 "Unable to get memebers from MailChimp"; with no requests allowed there is no answer (paging is stated by `Sync.FetchesWholeList`) |
| `Sync.FetchExtendsAccumulator` | server/src/entitites/guest/utils/fetchMailchimpMembers.ts:30-38 | the members gathered start with the accumulator: pages are only appended |
| `Sync.FetchesWholeList` | server/src/entitites/guest/utils/fetchMailchimpMembers.ts:13-41 | when Mailchimp serves a fixed list in pages of 200, reading from a prefix gathers the whole list |
| `Sync.StalledPagingNeverEnds` | server/src/entitites/guest/utils/fetchMailchimpMembers.ts:30-38 | an empty page below the reported size asks for the same page again, forever |
| `Sync.FailedPageFails` | server/src/entitites/guest/utils/fetchMailchimpMembers.ts:17-28 | a failing request ends the reading with 500 "Unable to get memebers from MailChimp" |
| `Sync.Emails` | server/src/entitites/guest/syncGuestsDatabase.ts:35 | exactly the members' addresses |
| `Sync.DriverDeleteUnlisted` | server/src/entitites/guest/syncGuestsDatabase.ts:31-42 | the deletion throws exactly when unreachable |
| `Sync.CleanOutcome` | server/src/entitites/guest/syncGuestsDatabase.ts:30-57 | a throw is 500 "Unable to clean guests database"; an unacknowledged deletion is 500 "Clean operation was not aknowledged by database"; otherwise the deleted count |
| `Sync.DeleteUnlisted` | server/src/entitites/guest/syncGuestsDatabase.ts:30-57 | an unreachable store is left unchanged with the 500 "Unable to clean guests database"; otherwise exactly the listed guests are kept, in order, and an unacknowledged deletion is the 500 "Clean operation was not aknowledged by database" |
| `Sync.Clean` | server/src/entitites/guest/syncGuestsDatabase.ts:22-59 | a failed member read is the answer; otherwise the deletion of unlisted guests |
| `Sync.CleanKeepsExactlyListed` | server/src/entitites/guest/syncGuestsDatabase.ts:34-36 | cleaning keeps exactly the guests whose address is a member's, in order, and answers how many were removed |
| `Sync.CleanKeepsValid` | server/src/entitites/guest/syncGuestsDatabase.ts:34-36 | cleaning keeps ids unique |
| `Sync.CleanIdempotent` | server/src/entitites/guest/syncGuestsDatabase.ts:34-36 | cleaning twice with the same members deletes nothing the second time |
| `Sync.SyncGuests` | server/src/entitites/guest/syncGuestsDatabase.ts:100-115 | one synced guest per member, in order |
| `Sync.MergeFields` | server/src/entitites/guest/syncGuestsDatabase.ts:136-145 | a matched guest takes names, company and update time from the list; every other field is kept |
| `Sync.MergeOne` | server/src/entitites/guest/syncGuestsDatabase.ts:133-147 | every row keeps its id in place, and there is one more row exactly when the hash was not stored |
| `Sync.MergeOneFacts` | server/src/entitites/guest/syncGuestsDatabase.ts:133-147 | one merge keeps ids unique and every row's identity; a guest with the incoming hash ends as `MergeFields` of it and the incoming document; without one, the document is appended as it is |
| `Sync.MergeAllFacts` | server/src/entitites/guest/syncGuestsDatabase.ts:126-156 | merging keeps ids unique, never removes a guest or changes its address, status, origin or creation time, leaves unnamed guests untouched, and stores every document's hash |
| `Sync.MergeAll` | server/src/entitites/guest/syncGuestsDatabase.ts:126-156 | every row keeps its id in place, and at most one row is added per document |
| `Sync.MergeAllWrites` | server/src/entitites/guest/syncGuestsDatabase.ts:133-147 | for a document whose hash no other document shares, a stored guest with that hash ends with its names, company and update time; without one, the document itself is appended |
| `Sync.MergeMembers` | server/src/entitites/guest/syncGuestsDatabase.ts:100-147 | the same for the members' SYNC documents |
| `Sync.EnsureIndex` | server/src/entitites/guest/syncGuestsDatabase.ts:73-93 | a failed check is 500 "Unable to verify index on guests collection"; an existing index is success; a missing one is created |
| `Sync.UpsertMembers` | server/src/entitites/guest/syncGuestsDatabase.ts:71-163 | the call rejects exactly when the drop throws; after a successful upsert the store is the merged one; otherwise it is unchanged or merged |
| `Sync.Upsert` | server/src/entitites/guest/syncGuestsDatabase.ts:61-166 | a failed member read is the answer; otherwise the upsert steps on the members read |
| `Sync.UpsertStepOrder` | server/src/entitites/guest/syncGuestsDatabase.ts:73-160 | the index is checked first and the temporary collection dropped last whatever failed; the index is created exactly when missing; the guests change only when the merge ran |
| `Sync.UpsertSucceedsIff` | server/src/entitites/guest/syncGuestsDatabase.ts:73-162 | success exactly when the index was there or got created, the batch was not empty, the temporary collection was filled, the guests were reachable and the drop returned |
| `Sync.UpsertKeepsGuests` | server/src/entitites/guest/syncGuestsDatabase.ts:100-162 | after a successful upsert every member's hash is stored, no guest was removed, and no address, status, origin or creation time changed; for a member whose hash no other member shares, a stored guest with it carries the member's names, company and update time, and a new address is stored as the member's SYNC document |
| `Sync.FailedUpsertChangesNothing` | server/src/entitites/guest/syncGuestsDatabase.ts:85-124 | a failure before the merge leaves the guests as they were |
| `ClientActions.Toggle` | src/stores/guest/actions.ts:28 | moves to the "away" status from "home" and to "home" from anything else |
| `ClientActions.Send` | src/stores/guest/actions.ts:25-34 | the local copy takes the new status only when the request resolves; a rejection leaves it as it was |
| `ClientActions.ChangeCheckin` | src/stores/guest/actions.ts:25-34 | the status changes only if the PUT of that status resolved |
| `ClientActions.ChangeWaitingList` | src/stores/guest/actions.ts:35-45 | the status changes only if the PUT of that status resolved |
| `ClientActions.RemoveGuest` | src/stores/guest/actions.ts:46-55 | the status changes only if the PUT of that status resolved |
| `ClientActions.ToggleTargets` | src/stores/guest/actions.ts:25-55 | RSVP ↔ CHECKED_IN, WAITING ↔ RSVP, REMOVED ↔ RSVP, any other status to the second |
| `ClientActions.FailedToggleKeepsStatus` | src/stores/guest/actions.ts:25-55 | a rejected request leaves the local copy unchanged for all three toggles |
| `ClientActions.ToggleTwice` | src/stores/guest/actions.ts:28-30 | toggling twice is the identity on the toggle's two states |
| `ClientActions.ChangeCheckinTwice` | src/stores/guest/actions.ts:25-34 | two check-in toggles restore RSVP and CHECKED_IN |
| `ClientActions.ChangeWaitingListTwice` | src/stores/guest/actions.ts:35-45 | two waiting-list toggles restore WAITING and RSVP |
| `ClientActions.RemoveGuestTwice` | src/stores/guest/actions.ts:46-55 | two removal toggles restore REMOVED and RSVP |
| `ClientActions.IsTicketAvailable` | src/stores/guest/actions.ts:56-66 | true exactly when the count request resolves and the count is below the numeric maximum; false on a rejection or a non-numeric maximum |
| `ClientActions.TicketAvailabilityMonotone` | src/stores/guest/actions.ts:61 | fewer RSVPs never take a ticket away, and a full event has none |
| `ClientActions.AddTag` | src/stores/guest/actions.ts:88-101 | an undefined or empty email returns before any request; otherwise the PUT is sent and its rejection rethrown as a new error |
| `ClientActions.NoEmailNoRequest` | src/stores/guest/actions.ts:90-92 | without an email the request function is never consulted |
| `ClientActions.InitData` | src/stores/guest/actions.ts:9-21 | marks the store initialised, reports it, and changes nothing else |
| `ClientActions.InitDataIdempotent` | src/stores/guest/actions.ts:11-12 | initialising again is a no-op |
| `ClientActions.SetStore` | src/stores/guest/actions.ts:22-24 | the listed guests become the data; the flag is kept |
| `ClientActions.SetStoreKeepsInitialised` | src/stores/guest/actions.ts:9-24 | loading the list after initialising leaves the store initialised |

## Left out

- Logging, the server URL, Express's `attachTo` wiring, the `NODE_ENV` test switch and the WebSocket events do not change any answer.
- MD5 is kept abstract. The digest `hashGuestEmail` applies is a parameter, and only its input (the lower-cased address) is modelled.
- The clock and the event-day test (`isSameDay` of the configured date and now) are inputs. So are the two clock readings of the cron middleware.
- Concurrency is not modelled. Calls happen one at a time: two racing first uses of a resource, and two overlapping cron invocations, are out of scope.
- MongoDB's unique indexes are not enforced by the in-memory store, so a duplicate hash or address is not refused on insert. Their creation is modelled as a call that returns or throws.
- `Email` (a trimmed zod e-mail string) is not modelled. Zod's e-mail regular expression is foreign code.
- The `UploadGuestsFileContent` schema check is an input: the body either parsed into rows or did not.
- Pagination.Matched / Strings.LowerChar: the `$regex` of the search stage is taken as a literal, ASCII case-insensitive substring test. Regular-expression metacharacters in the search text are not interpreted, and non-ASCII letters are matched only in the case given.
- Strings.Lower / Guests.HashEmail: the address is lower-cased before hashing by folding ASCII capitals only. JavaScript's `toLowerCase` folds every Unicode letter and can change the length (U+0130 becomes two code units). So the model hashes "JOSÉ@x.it" and "josé@x.it" differently, and would fetch the second address from Mailchimp and store it again, where the source finds one guest. The full Unicode case tables are not modelled.
- Guests.HashIgnoresCase: stated for addresses that agree after ASCII folding only, for the reason above.
- GuestLookup.FindGuestIgnoresCase: stated for ASCII case differences only, for the reason above.
- Unreachable database: `reachable == false` stands for driver calls that throw after a connection was made. In the source, a failed connection makes `database.use` reject with 500 "Unable to connect to database" (server/src/resources/database.ts:8-13, propagated by Resource.ts:35-38). Every collection method then rejects rather than answering a `Failure`, and the caller stops there. The model turns it into a 500 `Failure` that callers fold like any other error. In particular, on an unreachable store `GuestCreation.CreateGuest` treats the 500 as "not found locally" and goes on to the subscription, where the source rejects before it.
- GuestCreation.CreateGuest: on an unreachable store it subscribes the guest before failing, as explained in the line above; the source rejects first.
- Failed acquisitions of the `env` and `mailchimp` resources reject in the source; the model takes both as acquired.
- Error payloads: the `extra` of a `ServerError` is the thrown exception's message, or a placeholder string such as "doc" or "result" where the source attaches an object. `handleError` only logs the payload and sends the client at most the message (server/src/routing/Router.ts:263-285), so no answer depends on it.
- GuestCreation.Overridden: the request body is taken to carry every field of `GuestCreationInput`, with null for one not given, as the test body of createGuest.test.ts:47-53 does. A body that leaves out `companyName` or `accountManager` keeps the stored value under `{ ...guest, ...body }`, which the model does not represent.
- Sorting ties: the source gives equal keys no secondary order. The model keeps them in store order, which is one order the database may produce.
- `getGuest` and `addGuestToWaitinglist` in the client actions are single GET requests whose answer is passed through (and whose rejection is rethrown). They have no logic of their own.
- `updateGuest`, `deleteGuest`, `generatePass`, `generateQrCode`, `tagMailchimpMember` and `addGuestThroughMailChimp` are not part of this model.
- `Sync.FetchAll` recurses without bound in the source. A `fuel` count caps the number of requests, and `None` means the cap was reached; `Sync.StalledPagingNeverEnds` shows the case where the source never stops.
- Dropping the temporary collection after the upsert: the model records the drop and its rejection, not the collection's contents.
- `Collections.Update` states the row count, the unreachable case and the answer's row. What an update stores is stated by `Collections.UpdateAnswer`, `Collections.UpdateThenFind` and `Collections.UpdateMissing`, because an update's effect depends on whether the id exists.
- `GuestReports.GetStats` states only the unreachable case. The reachable case is stated by `GuestReports.StatsAddUp`, since the counts need the counting lemmas.
- `GuestReports.FindGuests` states only that a page is answered. Its contents are stated by `GuestReports.FoundGuestsMatch` and the `Pagination` lemmas.
- `Login.Utf8` covers every Dafny `char`, which cannot hold a lone surrogate, so JavaScript's replacement of lone surrogates by U+FFFD is not modelled.

## Findings

| source | as written | input that shows it | evidently intended | confidence | as-written member | corrected member |
|---|---|---|---|---|---|---|
| server/src/database/Collection.ts:172-176 | the skip stage is added only when `after`/`before` is truthy, so an empty-string cursor is dropped | rows keyed "" and "a", page size 1: the first page ends with cursor "", and asking for the page after "" serves the first page again | continue strictly after the given cursor, including the empty one | not executed; low impact, as only a search key equal to "" yields such a cursor | `Pagination.EmptyCursorRestartsAsWritten` | `Pagination.EmptyKeyNextPage` |
| server/src/entitites/guest/checkInGuest.ts:24-32 | passes `{ _id: guest._id }` to `update`, which takes the id itself and builds the filter `{ _id: { _id } }` | any stored guest's hash: the filter matches nothing, so the answer is 404 "Guest not found" and nobody is checked in | update the found guest by its id to CHECKED_IN | not executed | `GuestLookup.CheckInAsWrittenMissesStoredGuest` | `GuestLookup.CheckInStoredGuest` |
| server/src/entitites/guest/createGuest.ts:85-92 | passes `{ emailHash }` to `update` where the id belongs; the referral branch does the same at line 70 | creating a guest whose address is already stored: the filter matches nothing, so the answer is 404 "Document not found" and nothing is saved | update the stored guest by its id with the body's fields | not executed | `GuestCreation.CreateExistingGuestAsWritten` | `GuestCreation.CreateExistingGuest` |
