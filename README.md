# Ad board service — a Dafny model

This project models the core of a classified-ad bulletin board written in Go.
Users create, publish, update, search and delete ads. Only an ad's author may
change it.

The model covers four parts of the code:

- **The entity store** (`Repo.Store<T>`). It is the in-memory repository behind
  the `Repository` interface (`internal/app/app.go:27-35`). Its source file is
  not part of this model, so its behaviour is pinned down by the tests and
  the interface. It is a map from identity to record plus a counter.
  `GetNextId` reports the counter without advancing it. `Add` stores its
  record at the counter and then advances it. This reading fits both
  `adapters/repo/repo_test.go:62-64` (two bare `Add`s occupy ids 0 and 1) and
  `tests/domain_test.go:41-58` (consecutive ads get ids 0, 1 and 2). It is
  not the only reading that fits: a store that numbers records by
  `len(items)` fits both tests as well. The counter was chosen because it
  never goes back, so an id is never reused after a delete. `GetArray`
  returns the records in ascending id order. `Delete` and `Update` of an
  unoccupied id fail with `DefunctEntity`.
- **The domain service** (`App.AdService`). It is a class holding the two
  stores as fields, with one method per operation of `AdService`. Each method
  states every outcome: which error comes back and in what order the checks
  run (user, then ad, then ownership, then validation), which record is
  returned, and what both stores hold afterwards.
  - Every method preserves `Valid()`: each record sits at its own id, and the
    author of every stored ad is a stored user.
  - `ListAds` and `SearchAds` are proved to be exact filters over the store
    (`Queries.Select`, `Queries.Matches`). They keep the order of
    `GetArray`, so the order of their results depends on the store's order.
  - For a stored user, `DeleteUser` is proved to remove exactly that user and
    the user's ads.
- **gRPC status classification** (`Grpc.StatusOf`). This is a pure function
  from (handler, service error) to status code. Each branch follows the
  if/else chain of its handler in `ports/grpc/server.go`.
- **The gRPC handlers** (`Server.AdServer`). This is a class over the service,
  with one method per handler. Each method calls the service, classifies its
  error with `StatusOf`, and states which status each request gets. It also
  proves that the service's error lies in `Grpc.ErrorsOf`.

Times are integers, with 0 as Go's zero time. The clock becomes a `now`
parameter. The external ad validator becomes the predicate `Queries.ValidAd`:
a title of 1 to 100 characters and a text of 1 to 500.

Behaviour of the code that the model makes explicit:

- **A cascade failure cannot happen in a sequential run.** `DeleteUser`
  deletes ads one by one and stops at the first failure, so a failure would
  leave only some of the ads deleted. When no other request runs in between
  and the invariant holds, no cascade step can fail. This is proved in
  `App.AdService.DeleteUser`. The server shares one service between its gRPC
  and HTTP listeners, which run concurrently (`cmd/main.go:36-47`). Another
  request could delete one of the user's ads after the snapshot is taken.
  The cascade would then stop with `DefunctAd`, and the ads already removed
  would stay removed. That run is outside the model (see "Store locking" under
  "## Left out").
- **Deleting a missing user gives `Unknown`.** This holds provided the store's
  `Delete` fails on an absent id, as the modelled store's does. No visible
  test shows that failure. Under the invariant, a missing user has no ads, so
  the service returns the store's own error. It does not return `DefunctUser`,
  the only error the `DeleteUser` handler treats as the client's fault
  (`ports/grpc/server.go:166-170`). The client therefore sees `Unknown`,
  whereas `UpdateUser` and `GetUser` answer a missing user with
  `InvalidArgument` (`Server.AdServer.DeleteUser`,
  `Scenarios.DeleteMissingUser`).
- **A missing ad on the `DeleteAd` handler gives `Unknown`.** The
  `ChangeAdStatus` and `UpdateAd` handlers list `DefunctAd` among the client
  errors (`ports/grpc/server.go:56-58`, `:71-73`). The `DeleteAd` handler does
  not (`ports/grpc/server.go:98`), so it answers `Unknown`
  (`Server.AdServer.DeleteAd`, `Grpc.EditHandlersAgreeExceptMissingAd`).
- **These are the only two gaps.** `Grpc.StatusFollowsIntendedMapping` proves that on
  every other error an operation can return, the status follows the
  handlers' own pattern:
  - a missing user or ad, or an invalid ad, is `InvalidArgument`;
  - another user's ad is `PermissionDenied`.
- **In the modelled store, a failed validation uses up no id.** This holds
  because the modelled `GetNextId` only reports the counter and `Add` advances
  it. No visible store code shows this. The only visible `GetNextId`, the mock
  at `app/app_test.go:17-19`, advances on every call. With such a store, a
  `CreateAd` that fails validation would consume an id.

Files:

- `errors.dfy`: the error values and the `Option`/`Result` wrappers.
- `entities.dfy`: the `Ad` and `User` records.
- `repo.dfy`: the store.
- `queries.dfy`: the validator, substring search and filters.
- `app.dfy`: the service.
- `grpc.dfy`: status classification.
- `server.dfy`: the gRPC handlers.
- `scenarios.dfy`: the repository's tests, restated as client methods that are
  proved from the contracts.

## Model

| member | source | states |
|---|---|---|
| Repo.Store.constructor | adapters/repo/repo_test.go:62 | a new store is empty and its first id is 0 |
| Repo.Store.Add | adapters/repo/repo_test.go:16-28 | never fails; stores the record at the counter, an id never used before, and advances the counter by one |
| Repo.Store.Update | adapters/repo/repo_test.go:75-95 | an occupied id gets the new record and no other id changes; an unoccupied id fails with DefunctEntity and changes nothing |
| Repo.Store.Get | adapters/repo/repo_test.go:38-50 | succeeds exactly when the id is occupied and returns the stored record; otherwise fails with DefunctEntity |
| Repo.Store.Delete | internal/app/app.go:31 | removes exactly an occupied id; an unoccupied id fails with DefunctEntity and changes nothing |
| Repo.Store.CheckIdExist | internal/app/app.go:32 | true exactly when a record occupies the id |
| Repo.Store.GetNextId | internal/app/app.go:33 | the id the next Add will use: free, and above every occupied id |
| Repo.Store.GetArray | internal/app/app.go:34 | a snapshot holding exactly the stored records, in ascending id order |
| Repo.OccupiedBelowSound | internal/app/app.go:34 | every id in the listing is below the bound and occupied |
| Repo.OccupiedBelowAscending | internal/app/app.go:34 | the id listing is strictly ascending, so it lists no id twice |
| Repo.OccupiedBelowComplete | internal/app/app.go:34 | every occupied id below the bound is in the listing |
| Repo.OccupiedBelowSpec | internal/app/app.go:34 | the id listing contains every occupied id once, in strictly ascending order, and nothing else |
| Repo.ValuesBelowSpec | internal/app/app.go:34 | position j of the snapshot is the record at the j-th occupied id |
| Queries.ValidAd | internal/app/app.go:57 | the validator's rule: a title of 1 to 100 characters and a text of 1 to 500 |
| Queries.Contains | internal/app/app.go:175 | substring search; a contained pattern is no longer than the string, and the empty pattern is contained in every string |
| Queries.ContainsIffOccurs | internal/app/app.go:175 | the search predicate holds exactly when the pattern occurs in the title at some offset, as with strings.Contains |
| Queries.Matches | internal/app/app.go:159-161 | the listing condition: the published flag matches, the author matches unless the filter is -1, and the creation time matches unless the filter is the zero time; a search matches when the title contains the pattern |
| Queries.Select | internal/app/app.go:155-164 | the append loop over the snapshot; the result is never longer than the input |
| Queries.SelectMember | internal/app/app.go:157-164 | an ad is in a filter result exactly when it is in the input and passes the filter |
| App.NoAdsByMissingUser | internal/app/app.go:51-53 | while the invariant holds, a user who is not stored has written no stored ad |
| App.AdSnapshot | internal/app/app.go:223-225 | the ad snapshot lists each ad once, in strictly ascending id order, and its ads by a user are exactly that user's stored ads |
| App.CascadeStateRemoves | internal/app/app.go:223-231 | after the cascade has walked the first i ads, exactly the ads by the user among them are gone |
| App.StillStored | internal/app/app.go:225-226 | an ad the cascade has not reached yet is still stored and unchanged, so deleting it cannot fail with DefunctAd |
| App.CascadeComplete | internal/app/app.go:222-231 | walking the whole snapshot removes exactly the user's ads |
| App.AdService.constructor | internal/app/app.go:37-39 | the service works on the two stores it is given, which must be consistent |
| App.AdService.CreateAd | internal/app/app.go:50-63 | a missing author fails with DefunctUser and stores nothing; a bad title or text fails with ValidationError, returns the unsaved candidate and stores nothing; otherwise stores an unpublished ad at a fresh id with creation time now and zero update time; keeps the invariant |
| App.AdService.ChangeAdStatus | internal/app/app.go:65-88 | DefunctUser, then DefunctAd, then PermissionDenied, first failure wins, and any failure leaves the ads unchanged; on success only Published changes |
| App.AdService.UpdateAd | internal/app/app.go:90-119 | the same three checks, then validation after the ownership check; any failure leaves the ads unchanged; on success only Title, Text and UpdatedAt change |
| App.AdService.GetAd | internal/app/app.go:121-130 | returns the stored ad, or DefunctAd with the zero ad; no user check |
| App.AdService.DeleteAd | internal/app/app.go:132-151 | the same three checks in order; on success exactly that id leaves the ad store, and on failure nothing changes |
| App.AdService.Filter | internal/app/app.go:153-181 | the loop returns the stored ads that pass the filter, in snapshot order; an ad is in the result exactly when it is stored and passes |
| App.AdService.ListAds | internal/app/app.go:153-167 | never fails; returns, in snapshot order, exactly the stored ads with the requested published flag, with the requested author unless that is -1, and created at the requested time unless that is zero |
| App.AdService.SearchAds | internal/app/app.go:169-181 | never fails; returns, in snapshot order, exactly the stored ads whose title contains the pattern |
| App.AdService.CreateUser | internal/app/app.go:183-187 | never fails; stores the user at a fresh id with the given name and email |
| App.AdService.UpdateUser | internal/app/app.go:189-205 | a missing user fails with DefunctUser and changes nothing; otherwise only name and email change and the id is kept |
| App.AdService.GetUser | internal/app/app.go:207-220 | returns the stored user, or DefunctUser with the zero user |
| App.AdService.DeleteUser | internal/app/app.go:222-234 | no cascade step can fail; a stored user and exactly their ads are removed; a missing user changes nothing and gets the store's DefunctEntity |
| Grpc.StatusOf | ports/grpc/server.go:39-173 | OK exactly when there is no error; PermissionDenied exactly for a foreign edit on the three editing handlers; DefunctUser is InvalidArgument except on GetAd, ListAds, SearchAds and CreateUser; DefunctAd is InvalidArgument exactly on ChangeAdStatus, UpdateAd and GetAd; ValidationError is InvalidArgument exactly on the four ad-writing handlers; DefunctEntity is always Unknown |
| Grpc.StatusFollowsIntendedMapping | ports/grpc/server.go:93-105 | on every error an operation can return, the status is the intended one, except in two cases answered Unknown instead of InvalidArgument: DeleteAd on a missing ad, and DeleteUser on a missing user |
| Grpc.EditHandlersAgreeExceptMissingAd | ports/grpc/server.go:51-101 | the ChangeAdStatus and UpdateAd handlers classify alike; DeleteAd differs from them only on DefunctAd |
| Server.AdServer.constructor | ports/grpc/server.go:31-37 | the port serves the service it is given |
| Server.AdServer.CreateAd | ports/grpc/server.go:39-49 | OK exactly when the author is stored and the ad is valid; the response is the new unpublished ad with the given title, text and author, created now, stored at the ad counter, which advances by one, with every other ad kept; every other request is InvalidArgument with an empty response, nothing stored and the counter kept |
| Server.AdServer.ChangeAdStatus | ports/grpc/server.go:51-64 | OK exactly for the author of a stored ad, whose response is that ad with only Published changed, while every other ad is kept; PermissionDenied exactly for another stored user; InvalidArgument exactly for a missing user or ad; any failure changes no ad; the ad counter never moves |
| Server.AdServer.UpdateAd | ports/grpc/server.go:66-79 | as ChangeAdStatus, with an invalid title or text from the author also InvalidArgument; on OK the response is the stored ad with only title, text and update time changed, and every other ad is kept; the ad counter never moves |
| Server.AdServer.GetAd | ports/grpc/server.go:81-91 | OK with the stored ad exactly when it exists, otherwise InvalidArgument |
| Server.AdServer.DeleteAd | ports/grpc/server.go:93-105 | OK for the author, PermissionDenied for another stored user, InvalidArgument exactly for a missing user, and Unknown exactly for a stored user and a missing ad; on OK only that ad goes, any failure changes no ad, and the ad counter never moves |
| Server.AdServer.ListAds | ports/grpc/server.go:107-117 | always OK; the response is the service's listing, in snapshot order, and holds exactly the stored ads that pass the three filters |
| Server.AdServer.SearchAds | ports/grpc/server.go:119-127 | always OK; the response is the service's search result, in snapshot order, and holds exactly the stored ads whose title contains the pattern |
| Server.AdServer.CreateUser | ports/grpc/server.go:129-137 | always OK; the response is a user with the given name and email, stored at the user counter, which was free and advances by one, with every other user kept |
| Server.AdServer.UpdateUser | ports/grpc/server.go:139-149 | OK exactly for a stored user, with the new name and email stored at that id; otherwise InvalidArgument and no user changes; the user counter never moves |
| Server.AdServer.GetUser | ports/grpc/server.go:151-161 | OK with the stored user exactly when it exists, otherwise InvalidArgument |
| Server.AdServer.DeleteUser | ports/grpc/server.go:163-173 | OK exactly for a stored user, whose ads go too; a missing user gets Unknown, never InvalidArgument, and changes no user and no ad; neither counter moves |
| Scenarios.FreshService | cmd/main.go:36 | a service over two fresh empty stores is valid |
| Scenarios.RepoAddTwice | adapters/repo/repo_test.go:9-29 | two adds on a fresh store both succeed and occupy ids 0 and 1 |
| Scenarios.RepoUpdate | adapters/repo/repo_test.go:53-97 | updates at ids 0 and 1 succeed and are read back; an update at id 2 fails with DefunctEntity |
| Scenarios.RepoGetAgreesWithCheck | adapters/repo/repo_test.go:31-51 | on any store, Get succeeds exactly when CheckIdExist is true, and otherwise fails with DefunctEntity |
| Scenarios.RepoIdsNotReused | internal/app/app.go:31-33 | in the modelled store, after add, delete, add the second record is at id 1 and id 0 stays free |
| Scenarios.ConsecutiveAdIds | tests/domain_test.go:41-58 | three ads created in a row get ids 0, 1 and 2 |
| Scenarios.CreateAdFields | tests/basic_test.go:8-23 | a new ad has id 0, the given title, text and author, is unpublished, has a nonzero creation time, and has never been updated |
| Scenarios.CreateAdRejectsBadLengths | internal/tests/validation_test.go:10-52 | an empty title, a 101-character title, an empty text and a 501-character text are each refused, and nothing is stored |
| Scenarios.ForeignEditsDenied | tests/domain_test.go:9-39 | another user's status change and update are refused with PermissionDenied, which gRPC reports as PermissionDenied |
| Scenarios.ChangeStatusSequence | tests/basic_test.go:25-45 | publish, unpublish and unpublish again all succeed and return the requested flag |
| Scenarios.ChangeAdStatusIdempotent | internal/app/app.go:85-87 | repeating a successful status change succeeds, returns the same ad and leaves the store as it was |
| Scenarios.UpdateAdFields | tests/basic_test.go:47-64 | an update sets title, text and a nonzero update time, and keeps the creation time |
| Scenarios.ListingFixture | tests/basic_test.go:91-110 | the listing test's setup leaves exactly the three expected ads in the store |
| Scenarios.ListAdsFilters | tests/basic_test.go:112-119 | listing the unpublished ads of user 0 yields exactly one ad, the second |
| Scenarios.SearchExample | tests/grpc_test.go:406-422 | "hello" contains "ell" and "best cat" does not |
| Scenarios.SearchFixture | tests/grpc_test.go:401-420 | the search test's setup leaves exactly the published "hello" ad and the unpublished "best cat" ad |
| Scenarios.SearchSelectsHello | tests/grpc_test.go:422-424 | filtering those two ads by "ell" keeps only the "hello" ad |
| Scenarios.SearchAdsFinds | tests/grpc_test.go:422-429 | searching "ell" yields exactly one ad, the published "hello" |
| Scenarios.DeleteAdThenGet | tests/basic_test.go:162-179 | after the author deletes an ad, GetAd fails with DefunctAd, which gRPC reports as InvalidArgument |
| Scenarios.DeleteAdRemovesOnlyIt | internal/app/app.go:150 | on any service, a successful delete makes GetAd fail with DefunctAd and leaves every other ad as it was |
| Scenarios.EditedAdFixture | tests/grpc_test.go:648-665 | the server-interceptor test's setup leaves one user and one published, edited ad |
| Scenarios.GrpcUpdateUserKeepsId | tests/grpc_test.go:508-515 | through the gRPC handlers, creating a user and then updating it is OK and answers id 0 with the new name and email |
| Scenarios.DeleteUserCascades | tests/grpc_test.go:667-675 | in the server-interceptor test, deleting that user succeeds, removes the ad too, and GetUser then fails with DefunctUser, which gRPC reports as InvalidArgument |
| Scenarios.DeleteUserLeavesNoAds | internal/app/app.go:222-234 | on any service, a successful DeleteUser leaves no ad by that user, and GetUser then fails with DefunctUser |
| Scenarios.DeleteMissingUser | ports/grpc/server.go:163-172 | deleting a user who never existed returns the store's DefunctEntity, which gRPC reports as Unknown |

## Left out

- Integer width: ids, the store counter and times are unbounded integers. Go's `int64` overflow of the counter is not modelled.
- Times: `time.Time` is an integer and `time.Now().UTC()` is a `now` parameter. Time zones, monotonic clock readings and nanosecond precision are not modelled.
- Validator: `github.com/Vdaleke/ad-validation` is not part of this model. `Queries.ValidAd` is its observable rule. It counts sequence elements, so the model does not decide between bytes and runes.
- Store implementation: the store's source file is not part of this model. `Repo.Store` is pinned down by the tests and the `Repository` interface.
- Store order: ascending id is a choice for the order of `GetArray`. `ListAds` and `SearchAds` return their results in that order, so the order they promise holds only for the modelled store.
- Deleting an absent id: the store failing with `DefunctEntity` is a choice, and the `DeleteUser` outcome for a missing user depends on it.
- Store locking: the mutex that guards the store, and concurrency in general, are left out. Every service operation runs atomically and sequentially. One consequence: the gRPC and HTTP listeners share one service (`cmd/main.go:36-47`), so a concurrent `DeleteAd` between the snapshot and a cascade step of `DeleteUser` would make the cascade stop part-way with `DefunctAd`, and the model does not capture that.
- Type erasure: the untyped payloads and `res.(ads.Ad)` type assertions become a generic `Store<T>`.
- Dead branches: the `if err != nil` branch after each `Get` is not modelled. The preceding `CheckIdExist` already guarantees that `Get` succeeds, so the branch cannot be reached.
- App.AdService.constructor: requires two stores that satisfy the invariant. The server passes two fresh stores (`cmd/main.go:36`), which qualify. The model's stores are typed, so one repository cannot be passed as both. The mocks in `app/app_test.go:21` do exactly that, and this is not modelled.
- App.AdService.DeleteUser: its contract covers only runs that start from a valid service. Under that condition the partial-cascade failure path cannot be reached.
- gRPC transport: the request and response messages, presenters, status messages, logging and panic interceptors are left out. The RFC 3339 parse of the listing time filter is also left out; the parsed time is an input of `ListAds`.
- HTTP transport: the gin server and its presenters are left out.
- Process setup: `cmd/main.go`, meaning listeners, signal handling and the errgroup, is left out.
- User record: the `users` package is not part of this model. Its fields (`ID`, `Name`, `Email`) are taken from how `internal/app/app.go` uses them.
