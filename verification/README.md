# Garage admin console: models and proofs

The console is a Go backend and a React frontend over Garage, an S3-compatible store. Most of it
passes requests through; what is modelled here are the parts with loops, shared state or a protocol
against something outside, and each outside party is a state machine of its own: Garage's list
endpoint, the S3 bucket, the browser that holds session cookies, Garage's staged layout, React's
event loop.

`dafny verify dfyconfig.toml` checks everything.

| module | what it models |
|---|---|
| `Listing` | paging through Garage's bucket and key lists, against any server and against a sorted list that others change between the pages |
| `TtlCache` | the cache of per-item information, a class, against the history of its calls |
| `CacheFreshness` | the cache between fetches that take time, mutations, and the invalidation after them |
| `FetchPool` | the worker pool that fills in missing information: feeder, channel, eight workers, cancellation, as interleaved steps |
| `ObjectStore`, `BulkDelete` | the bucket, and deleting or counting everything under a prefix |
| `ZipNames`, `ZipKeys`, `ZipArchive` | entry names that are safe and unique, what they keep of the key, and what becomes of every key of an archive |
| `Tickets` | single-use download tickets |
| `Session` | the sliding session cookie, the writer that renews it, login and callback |
| `UploadQueue`, `UploadHistory` | the upload component with its cap of three, retries and dismissals, and what its rows say in terms of the events |
| `StableSort`, `Workers` | flattening the worker lists of all nodes |
| `RepairGuard`, `RepairReasons` | the guard on destructive repairs, as the backend and as the UI have it, and what both say when they refuse |
| `LayoutDraft` | the layout form, reverting staged changes, and the totals |
| `StorageHealth` | merging three per-node answers |
| `BatchKeys`, `BatchBodies` | the key list that the batch-delete handler decodes and deletes, against the one the audit line is about |
| `JsonSpelling`, `JsonGrammar` | all ways to write strings and values in JSON, and that the scanner takes exactly these |
| `Utf8`, `JsonText`, `AuditSummary`, `AuditKeys`, `AuditBody` | the audit line's summary of a body that may be cut off, the body the handler still gets, and the capped copy of the response |
| `Disposition` | the download header |
| `Corruptions` | the increase of a node's corruption counter |
| `KeyOrder`, `Options` | the order of keys, and the optional value |

A class or a method with a loop stands where the source changes state step by step; its contract
ties the new state to a function or predicate, and the lemmas say what that means over whole
runs. Clocks, randomness, map visiting order and the answers of other systems are parameters, so
every statement holds for all of them.

## Where the code does less than one might expect

- Invalidating the list caches is not a promise of freshness, although the comment at
  backend/list_enrich.go:292 says that the list reflects a mutation immediately: a fetch that was
  under way may store the old value afterwards (`CacheFreshness.StaleAfterInvalidate`).
  `CacheFreshness.FreshAfterMutation` says exactly when it is: if and only if no fetch was under way
  when the mutation was made.
- The UI's repair guard does not look at whether the status request failed. It can enable a repair
  from old node roles, which the backend then refuses; `RepairGuard.EnabledIsForwarded` says that
  this is the only case.
- Ticking "remove" on a node that has a staged role but no applied one stages nothing, so the
  addition stays staged although the form offers the box (frontend/src/routes/layout.tsx:483).
  `LayoutDraft.RowTakesEffect` gives the exact condition under which a row takes effect.
- A per-source reason of the storage health can be empty when Garage's own message is; the joined
  reason never is (`StorageHealth.MissingResyncHasAReason`).
- Logging out does not revoke a cookie: the state lives in the cookie. One that was received before
  a logout is accepted afterwards exactly as long as its own age allows
  (`Session.LogoutRevokesNothing`, and a run in `Session.KeptCookieAfterLogout`).

- The audit line of a batch delete need not be about the keys that are deleted: it takes the first
  member spelled exactly `keys`, while the handler's decoder ignores case and lets later members
  win (`BatchBodies.SecondMemberWins`, `BatchBodies.OtherNameIsNotLogged`).
  `BatchKeys.AuditMatchesHandler` says exactly when both are about one list; for the bodies that a
  client writes they are (`BatchBodies.ClientBodyAgrees`).

## What the models assume of others

- A list request to Garage may fail. A page holds the entries from the offset on in ascending order
  of ID: as many as the limit, or all that are left when those are fewer. `Listing.AnyServer` needs
  no assumption.
- A body is decoded as version 1 of encoding/json does it: member names match up to simple case
  folding, later members overwrite earlier ones, and a null in a list leaves what its place held.
- An S3 list page is the sorted run of keys under the prefix and behind StartAfter; a page marked
  as truncated is not empty; a successful DeleteObjects names every requested key once, as deleted
  or as an error. Keys are valid UTF-8 and not empty.
- Session cookies cannot be forged, and tickets and login states are fresh.
- Garage reports a staged role only where it differs from the applied one.
- One event of the upload component sees the state that the event before it left.

## Model

| member | source | states |
|---|---|---|
| Listing.ListAllInfo | backend/list_enrich.go:182-229 | the paging loop with its offset, repeat, no-progress and page-cap exits computes the listing that the results below are about, for every server |
| Listing.AbsorbPage | backend/list_enrich.go:209-217 | one page is taken in up to the first ID already seen; the seen set always holds exactly the listed IDs |
| Listing.TakeAnswer | backend/list_enrich.go:196-226 | what one answer does: an error ends the call, and a page ends the listing or gives the next offset, with the seen set that belongs to it |
| Listing.AnyServer | backend/list_enrich.go:103-228 | against any server at all: at most as many requests as pages are allowed, no empty slice indexed, no ID listed twice, truncated exactly unless the last page ended it, and no listing only when a request failed; its answer then is the error, or means that Garage lacks the endpoint: a 400 that says so on any page, any 400 or 404 or undecodable answer on the first |
| Listing.OnePageMissesNothing | backend/list_enrich.go:197-217 | an entry present at all requests so far is listed after this page or lies behind its last entry |
| Listing.FullPage | backend/list_enrich.go:205-226 | with a limit of at least 2 a full page from a sorted server always adds entries and moves the offset forward |
| Listing.NothingLost | backend/list_enrich.go:191-228 | from any point of the loop on, whatever others insert and delete: an untruncated result ended with the last page and holds every entry that was there all along, a truncated one ended at the page cap, and none ends with a repeated entry or for want of progress; any request may fail |
| Listing.ListingComplete | backend/list_enrich.go:182-229 | the same for a whole call, which lists unless a request fails |
| Listing.UnchangedList | backend/list_enrich.go:182-229 | on an unchanging sorted list of N entries, unless a request fails: a prefix of it, truncated exactly when N is greater than pages times (limit - 1) |
| Listing.LimitOneLosesEntries | backend/list_enrich.go:205-220 | why the limit must be at least 2: with one entry per page the listing ends after one entry and does not say that it is truncated |
| TtlCache.Cache.Get | backend/list_enrich.go:244-253 | a value that is stored and not expired, and nothing otherwise |
| TtlCache.Cache.Put | backend/list_enrich.go:255-266 | the key gets the value with the cache lifetime, 15 seconds when none is set; no other key changes |
| TtlCache.Cache.PurgeExpired | backend/list_enrich.go:270-279 | exactly the expired entries go, in whatever order the map is visited |
| TtlCache.Cache.Clear | backend/list_enrich.go:281-285 | nothing is left |
| TtlCache.InvalidateListCaches | backend/list_enrich.go:295-298 | both caches are empty afterwards |
| TtlCache.CacheRefinesHistory | backend/list_enrich.go:233-285 | over every history with a clock that does not run backwards, a lookup hits exactly when the latest put that no clear followed has not expired, and returns that value |
| TtlCache.PurgeIsInvisible | backend/list_enrich.go:268-279 | a purge at any moment changes no lookup made then or later |
| CacheFreshness.FreshAfterInvalidate | backend/list_enrich.go:292-347 | whatever follows an invalidation, all lookups of a key reflect every mutation before it if and only if each fetch of that key under way had begun after the last one |
| CacheFreshness.FreshAfterMutation | backend/list_enrich.go:300-316 | after any run: a mutation that is invalidated at once is seen by all later lookups of all keys if and only if no fetch was under way when it was made |
| CacheFreshness.RunSafe | backend/list_enrich.go:244-297 | every step keeps that no cached value and no fetch under way is older than a given mutation |
| CacheFreshness.StaleAfterInvalidate | backend/list_enrich.go:292-347 | a run that shows it: fetch begins, Garage changes, caches are cleared, fetch ends, and the old value is returned |
| FetchPool.SplitCached | backend/list_enrich.go:323-331 | the output starts with the cached values and todo lists exactly the missing indices in order |
| FetchPool.SplitIsWellFormed | backend/list_enrich.go:324-331 | the split is what the pool below starts from: every uncached index once and no other |
| FetchPool.StepInv | backend/list_enrich.go:333-361 | every step of feeder, worker or canceller keeps the invariant: indices and busy workers correspond one to one, nothing is dropped, every element is written at most once |
| FetchPool.StepWork | backend/list_enrich.go:335-361 | every step leaves strictly less to do |
| FetchPool.RunsAreFinite | backend/list_enrich.go:333-361 | no interleaving is longer than that measure |
| FetchPool.NeverStuck | backend/list_enrich.go:353-361 | until wg.Wait returns some step other than cancelling is possible |
| FetchPool.HandedOutInOrder | backend/list_enrich.go:352-359 | the indices taken in a run are a stretch of the missing ones, in order: none is skipped and none comes back, failed or not |
| FetchPool.EveryRun | backend/list_enrich.go:321-363 | in every interleaving: finite, at most min(8, missing) fetches under way, no index taken twice over the whole run, no element written twice, no deadlock |
| FetchPool.OnlyCancelCancels | backend/list_enrich.go:353-361 | the pool counts as cancelled exactly when the request was cancelled during the run |
| FetchPool.FetchedIsCached | backend/list_enrich.go:338-348 | whatever a run fetched for the output is in the shared cache afterwards |
| FetchPool.FinalOutput | backend/list_enrich.go:338-362 | the output is aligned with the ids: cached values kept, every missing one fetched unless cancelled, nil exactly when its fetch failed or never ran, every value an answer for that id |
| FetchPool.CacheStaysSound | backend/list_enrich.go:340-347 | the shared cache only ever gains answers that belong to their keys |
| ObjectStore.Bucket.List | backend/handler_objects.go:1077-1087 | the model of ListObjectsV2: a prefix of the sorted keys under the prefix and behind StartAfter, empty only when nothing is left, possibly after changes by others |
| ObjectStore.Bucket.Delete | backend/handler_objects.go:933-951 | the model of DeleteObjects: a successful answer partitions the request into deleted and refused keys |
| ObjectStore.PrefixedKey | backend/handler_objects.go:1077-1083 | a key is under a prefix exactly when it is the prefix with something, perhaps nothing, behind it |
| ObjectStore.UnderRest | backend/handler_objects.go:1082-1087 | listing again behind a listed key continues exactly where the page stopped |
| BulkDelete.DeleteChunk | backend/handler_objects.go:929-951 | one request: its keys are deleted or errors, all of them errors when it fails |
| BulkDelete.DeleteKeys | backend/handler_objects.go:924-954 | deleted plus errors is exactly the length of the attempted prefix of the keys, as multisets too; the prefix ends at a failed request and is everything otherwise |
| BulkDelete.TakeKeys | backend/handler_objects.go:1097-1104 | the keys of a page that still fit under the cap of 10000, and whether some did not |
| BulkDelete.DeletePage | backend/handler_objects.go:1077-1119 | one turn: what was listed, what was asked to be deleted, and how it ended |
| BulkDelete.NextCounted | backend/handler_objects.go:1109-1123 | every turn keeps processed = deleted + per-key errors, the cap, and strictly ascending StartAfter keys |
| BulkDelete.NextWatch | backend/handler_objects.go:1084-1123 | every turn keeps that all watched keys up to StartAfter have been gone, as long as there are no errors |
| BulkDelete.NextAlone | backend/handler_objects.go:1076-1124 | in a bucket nobody else uses every turn keeps the exact position in the original listing |
| BulkDelete.NextTurned | backend/handler_objects.go:1076-1124 | every turn keeps all of these together |
| BulkDelete.RecordTurn | backend/handler_objects.go:1088-1123 | the counters after a turn, and exactly when the whole answer is an S3 error |
| BulkDelete.SweepPrefix | backend/handler_objects.go:1073-1124 | the loop over the turns ends, and what the turns keep holds at its end |
| BulkDelete.DeletePrefix | backend/handler_objects.go:1061-1132 | in every run only keys under the non-empty prefix are deleted, at most 10000 are processed, all are accounted for, and a complete answer without errors means every key there at the start is gone |
| BulkDelete.CountPage | backend/handler_objects.go:1042-1049 | count, size and cap of one more page |
| BulkDelete.PrefixSummary | backend/handler_objects.go:1023-1054 | on an unchanging bucket, for every legal paging: the number of keys under the prefix up to the cap, whether there are more, and the size of those counted |
| BulkDelete.SummaryThenDelete | backend/handler_objects.go:1023-1124 | count and truncated flag shown before a deletion equal what the deletion then processes and reports |
| ZipNames.SanitizeZipEntryName | backend/handler_objects.go:524-553 | computes the sanitized name |
| ZipNames.SanitizedIsSafe | backend/handler_objects.go:518-553 | a sanitized name is empty or a relative path without empty, "." or ".." segments, backslashes, control characters or drive prefix; a directory keeps its slash |
| ZipNames.SanitizeIdempotent | backend/handler_objects.go:524-553 | sanitizing twice is sanitizing once |
| ZipKeys.KeyIsJoined | backend/handler_objects.go:527 | every key is some parts with slashes between them |
| ZipKeys.BackslashIsSlash | backend/handler_objects.go:525 | keys that differ only in the direction of slashes have the same name |
| ZipKeys.NameIsMadeOfParts | backend/handler_objects.go:524-556 | for every key by its parts: the name is the parts, each without exactly the characters below 0x20 and 0x7F, in order, less the empty ones, "." and "..", with the colon of a drive replaced and a last slash kept |
| ZipKeys.PlainKeyIsKept | backend/handler_objects.go:524-556 | a key of parts that need no change is its own name, as a file and as a directory |
| ZipNames.ZipNamer.ClaimDir | backend/handler_objects.go:568-574 | true exactly for a name not handed out before; the name is taken afterwards |
| ZipNames.ZipNamer.Unique | backend/handler_objects.go:578-596 | the search ends and gives the name itself or the free candidate with the smallest number |
| ZipNames.PigeonHole | backend/handler_objects.go:589-595 | i candidates found taken need i different names in the set, so the open-ended loop is bounded |
| ZipNames.CandidateInjective | backend/handler_objects.go:589-590 | candidates with different numbers are different names |
| ZipNames.DecimalInjective | backend/handler_objects.go:590 | different numbers have different decimal forms |
| ZipKeys.DecimalIsWritten | backend/handler_objects.go:591-592 | the number is written in base 10 without a zero in front |
| ZipKeys.CandidateKeepsExtension | backend/handler_objects.go:584-592 | the number goes in front of the last dot of the base name, and directory, stem and extension are kept |
| ZipKeys.CandidateOfBareName | backend/handler_objects.go:587-592 | without a dot, or with nothing in front of it, the number goes behind the name |
| ZipNames.CandidateSafe | backend/handler_objects.go:583-590 | a numbered candidate of a safe name is safe |
| ZipArchive.AddFile | backend/handler_objects.go:675-679 | a file entry gets a safe name different from all before |
| ZipArchive.FateKinds | backend/handler_objects.go:642-697 | what kind of fate a key has, from the answer of S3, the last character of the name and the names taken: an empty object under a name with a slash is a folder, entered once |
| ZipArchive.AddKey | backend/handler_objects.go:642-697 | one key becomes an entry, a repeated folder marker or an error line, and the archive breaks off exactly when the client left or a header could not be written |
| ZipArchive.WriteKeys | backend/handler_objects.go:636-697 | the loop over the keys: every key so far has its fate, the names are distinct and safe, and the keys with a fate are exactly those in front of the first that breaks the archive off |
| ZipArchive.StreamBatchZip | backend/handler_objects.go:636-713 | for every key list all entry names are distinct and safe; the archive is finished exactly when no key and not the error file broke it off; in a run that is not cut off every key is an entry, a repeated folder marker or a line of the error file, which itself is an entry exactly when there are lines |
| Tickets.TicketStore.Issue | backend/handler_objects.go:749-770 | expired tickets go first; refused only when full; otherwise the token holds the request until now plus the lifetime |
| Tickets.TicketStore.Redeem | backend/handler_objects.go:774-786 | any attempt consumes the token; it succeeds only unexpired and for its own bucket |
| Tickets.StoreRefinesHistory | backend/handler_objects.go:729-786 | over every history with fresh tokens a token is good exactly when some event issued it, nobody has tried it since and it has not expired |
| Tickets.RedeemMeaning | backend/handler_objects.go:774-786 | redeeming returns the request of the live ticket for that bucket, and nothing otherwise |
| Tickets.RedeemedOnce | backend/handler_objects.go:777-785 | after any attempt with a token, also for the wrong bucket, no later attempt succeeds |
| Tickets.StoreBounded | backend/handler_objects.go:759-769 | the store never exceeds its maximum |
| Tickets.IssueRefusesWhenFull | backend/handler_objects.go:759-766 | issue refuses exactly when the maximum of unexpired, untried tickets is pending |
| Session.AuthMiddleware | backend/auth.go:301-346 | which requests are served, also for an unreadable cookie; what the session then holds; and which cookies the response carries |
| Session.NeverRefreshed | backend/auth.go:316-335 | a cookie without refreshed_at is never too long idle and is due for a refresh; one without issued_at is judged from now on |
| Session.SessionRefreshWriter.Refresh | backend/auth.go:371-382 | adds the session cookie the first time it is called, unless the handler has set one |
| Session.SessionRefreshWriter.RefreshAndSend | backend/auth.go:384-399 | every kind of first write adds the cookie before the header goes out |
| Session.ServeRefreshing | backend/auth.go:335-342 | for every sequence of handler calls: the cookies that reach the client when a refresh is due, also for a handler that writes nothing |
| Session.HasSessionSetCookie | backend/auth.go:406-413 | true exactly when one of the lines is a session cookie |
| Session.LogoutIsNotUndone | backend/auth.go:361-399 | a handler that expires the session before the header has the last word; otherwise exactly one renewed cookie goes out, as the last line |
| Session.HandleLogin | backend/auth.go:120-157 | state and return path are replaced, all other values kept; the return path is dropped only when the cookie does not fit with it |
| Session.HandleCallback | backend/auth.go:175-244 | needs the state to match; the old cookie is expired first and the new one holds nothing of it |
| Session.JarOfLogin | backend/auth.go:128-157 | every cookie a client can collect from a login keeps its issued_at and user |
| Session.EveryRun | backend/auth.go:316-333 | in every run with any cookie ever received, replayed in any order: accepted at most 12 hours after the login and at most 3600 s after the cookie used was refreshed |
| Session.HandleLogout | backend/auth.go:268-286 | behind the middleware: a served logout only ever expires the session cookie, whether or not a refresh was due |
| Session.LogoutRevokesNothing | backend/auth.go:268-346 | in every run with a logout, a cookie received before it can be used at any time after it and is accepted exactly until 12 hours after the login and 3600 s after its refresh |
| Session.KeptCookieAfterLogout | backend/auth.go:268-346 | a concrete run: sign in, log out, and be accepted a second later with the cookie kept |
| Session.StaysSignedIn | backend/auth.go:326-342 | a client using its newest cookie with gaps of at most 3300 s (and one nanosecond) is accepted until 12 hours after the login |
| Session.FreshLogin | backend/auth.go:236-238 | the login cookie meets what StaysSignedIn starts from |
| Session.LongerGapsSignOut | backend/auth.go:326-335 | exactly that gap is the limit: any longer one after a visit that was just too early for a refresh signs the client out |
| UploadQueue.ObjectUploader.PatchUpload | frontend/src/components/object-browser.tsx:193-195 | the row with the id gets the status and, when asked for, its bytes sent set to none or all; its other fields, all other rows and their order stay |
| UploadQueue.ObjectUploader.PumpUploads | frontend/src/components/object-browser.tsx:200-237 | starts queued uploads in order until three run or none is queued |
| UploadQueue.ObjectUploader.EnqueueFiles | frontend/src/components/object-browser.tsx:239-255 | the transition of choosing files |
| UploadQueue.ObjectUploader.Settle | frontend/src/components/object-browser.tsx:218-235 | the transition of an upload that ends, with its patch, the next starts and the refresh |
| UploadQueue.ObjectUploader.Requeue | frontend/src/components/object-browser.tsx:257-269 | the transition of a retry, from rows that may be out of date |
| UploadQueue.ObjectUploader.DismissUploads | frontend/src/components/object-browser.tsx:271-273 | the transition of the three dismissals |
| UploadQueue.PumpInv | frontend/src/components/object-browser.tsx:200-237 | pumping keeps the invariant and leaves no slot free while something is queued |
| UploadQueue.StepInv | frontend/src/components/object-browser.tsx:193-273 | every event keeps the invariant, and onUploaded is called exactly when an upload ends and nothing is left running or queued |
| UploadQueue.RunInv | frontend/src/components/object-browser.tsx:193-273 | so does every sequence of events |
| UploadQueue.EveryRun | frontend/src/components/object-browser.tsx:193-273 | after every sequence of events: the counter is the number of running uploads and at most 3, nothing is queued twice or both queued and running, every status says where its upload is, uploads start in queue order |
| UploadHistory.EventsTellAll | frontend/src/components/object-browser.tsx:193-273 | after every sequence of events, read off the events alone: the rows are the files chosen and not dismissed, in order; each is done, in conflict or failed exactly as its upload last ended since it was last queued, done means all bytes sent, and overwriting is allowed only by its last retry |
| UploadHistory.RequestsAreThoseNamed | frontend/src/components/object-browser.tsx:203-217 | what is sent to the server is, in order, what the events queued: one request per chosen file or retried row, with its key and its overwrite flag |
| Workers.FlattenWorkers | backend/handler_workers.go:47-72 | for every visiting order: sorted by node and worker ID, under each exactly the decodable workers in their order; the errors are passed on |
| Workers.FlatteningIsUnique | backend/handler_workers.go:45-67 | there is only one such list, so map order cannot show |
| Workers.EntriesOfNode | backend/handler_workers.go:49-61 | the entries of a node are its decodable workers, no more and no fewer |
| StableSort.SortFacts | backend/handler_workers.go:62-67 | the stable sort permutes, sorts, and keeps the order of equal keys |
| StableSort.SortedUnique | backend/handler_workers.go:62-67 | a sorted list is determined by its groups of equal keys |
| RepairGuard.StorageNodes | backend/repair_guard.go:107-127 | the nodes with a capacity, or draining without a role, named and sorted by ID |
| RepairGuard.DestructiveRepairBlockers | backend/repair_guard.go:151-191 | the reasons in their order and the advice, for every cluster state |
| RepairGuard.BlockersMeaning | backend/repair_guard.go:148-191 | there is no reason exactly when all storage nodes are up, all partitions have all replicas, and every storage node answered with idle table-sync workers |
| RepairGuard.GuardDestructiveRepair | backend/repair_guard.go:193-250 | a destructive repair is forwarded exactly on a safe cluster; missing counters and failed requests refuse it as unknown, saying which came first; every other refusal carries all the reasons, and says to restore nodes exactly when a counter is short |
| RepairGuard.EvaluateRepairGuard | frontend/src/lib/repair-guard.ts:86-131 | the UI enables the button exactly when it is satisfied, says so while loading, and otherwise lists its reasons and advice |
| RepairGuard.UiReasonsMeaning | frontend/src/lib/repair-guard.ts:103-126 | the UI has no reason exactly when the counters are full and every storage node is listed with idle table-sync workers |
| RepairGuard.GuardsAgree | frontend/src/lib/repair-guard.ts:62-131 | on one snapshot the UI allows exactly what the backend allows, plus its demand that every storage node lists at least one worker |
| RepairGuard.EnabledIsForwarded | frontend/src/lib/repair-guard.ts:62-74 | an enabled button is forwarded by the backend if and only if the node roles could be fetched |
| RepairGuard.StaleRolesEnableTheButton | frontend/src/lib/repair-guard.ts:62-74 | a concrete cluster where the status request fails, the page holds old roles, the button is enabled and the backend refuses |
| RepairGuard.EmptyListsDivide | frontend/src/lib/repair-guard.ts:114-119 | a storage node that answered with an empty list passes the backend and not the UI |
| RepairReasons.HeldBack | backend/repair_guard.go:27-32 | exactly the four repairs that mark metadata as deleted are judged, in their plain form |
| RepairReasons.RowsOfStorage | backend/repair_guard.go:105-127 | the nodes gone through are those with a capacity, or draining without a role, each under its host name or the first 16 characters of its ID, in the order of their IDs |
| RepairReasons.BlockersAre | backend/repair_guard.go:151-184 | in the raw answers: a counter is named exactly when it is short, a node exactly when it is a storage node without an answer, with its message, and the last reason names exactly the four table syncs that are not idle on storage nodes |
| RepairReasons.UiReasonsAre | frontend/src/lib/repair-guard.ts:103-126 | the same for the UI, from the flattened worker list and with its own names |
| RepairReasons.BackendFollows | backend/repair_guard.go:160-183 | reasons and running syncs stand in the order of the nodes |
| RepairReasons.UiFollows | frontend/src/lib/repair-guard.ts:113-123 | and so do those of the UI |
| LayoutDraft.UntouchedStagesNothing | frontend/src/lib/layout-draft.ts:41-94 | a row nobody touched stages nothing, for every applied and staged role |
| LayoutDraft.TagsSurviveTheForm | frontend/src/lib/layout-draft.ts:75-77 | joining and parsing gives a tag list back exactly when every tag is trimmed, not blank and without comma |
| LayoutDraft.SpacesAre | frontend/src/lib/layout-draft.ts:75-77 | the characters that trimming removes are exactly the white space and line terminators of ECMAScript |
| LayoutDraft.RowTakesEffect | frontend/src/lib/layout-draft.ts:84-116 | an accepted row makes the next layout what it says if and only if it is not one of two dropped kinds |
| LayoutDraft.RefusedExactly | frontend/src/lib/layout-draft.ts:84-112 | by what was typed: a row is refused exactly when it asks for a role with a capacity edited to no number, or without a zone on a node that has a role, and with that reason |
| LayoutDraft.StagedExactly | frontend/src/lib/layout-draft.ts:84-116 | and staged exactly when it asks for a role with a zone and a usable capacity, or removes an applied role |
| LayoutDraft.GatewayOnlyIfBlank | frontend/src/lib/layout-draft.ts:97-109 | a row makes a node a gateway exactly with a blank capacity field, unless that is an untouched one that stands for a capacity |
| LayoutDraft.StagedAdditionCannotBeRemoved | frontend/src/lib/layout-draft.ts:87-90 | the first dropped kind: removal ticked on a node with a staged but no applied role stages nothing |
| LayoutDraft.BytesAreKept | frontend/src/lib/layout-draft.ts:97-102 | an untouched capacity field keeps the exact bytes |
| LayoutDraft.CollectChanges | frontend/src/routes/layout.tsx:204-214 | all changes of the rows in order, or none when a row is refused |
| LayoutDraft.RowInForm | frontend/src/routes/layout.tsx:204-214 | staging the whole form makes each row its intended role, or leaves a dropped one as it was |
| LayoutDraft.NodeOutsideForm | frontend/src/routes/layout.tsx:204-214 | no node without a row changes, and no applied role does |
| LayoutDraft.RevertRemovesOneEntry | frontend/src/lib/layout-draft.ts:127-135 | staging the revert removes that node's staged entry and no other |
| LayoutDraft.RevertAllRemoves | frontend/src/lib/layout-draft.ts:118-135 | reverting nodes in any order leaves exactly the entries of the others |
| LayoutDraft.RowsShowNextRoles | frontend/src/lib/layout-draft.ts:228-243 | the table pairs each applied role with the role of the next layout |
| LayoutDraft.TotalsOf | frontend/src/lib/layout-draft.ts:254-264 | number of roles, of distinct zones, and sum of capacities |
| LayoutDraft.CapacityAdds | frontend/src/lib/layout-draft.ts:254-264 | an entry adds its capacity to the sum, and a gateway nothing |
| LayoutDraft.LayoutTotals | frontend/src/lib/layout-draft.ts:270-280 | the totals of the applied roles and of the roles after the staged changes |
| LayoutDraft.TotalsDoNotDependOnOrder | frontend/src/lib/layout-draft.ts:254-264 | two listings of one layout have the same totals |
| LayoutDraft.AfterIsTheNextLayout | frontend/src/lib/layout-draft.ts:274-279 | the roles counted as after are exactly those of the next layout |
| LayoutDraft.RevertingAllRestoresTotals | frontend/src/lib/layout-draft.ts:266-280 | once all staged nodes are reverted, in any order, before and after are equal |
| StorageHealth.AggregateNodeStatistics | backend/handler_metrics.go:40-60 | for every visiting order: the sorted breakdown of the nodes with statistics, both sums equal to its sums with 64-bit wrap-around, and a message for every other node |
| StorageHealth.BreakdownIsUnique | backend/handler_metrics.go:40-60 | breakdown and sums are the same for every order |
| StorageHealth.BreakdownMembers | backend/handler_metrics.go:42-54 | a node is listed exactly when it reported statistics, with what it reported |
| StorageHealth.SumsOfSort | backend/handler_metrics.go:52-58 | sorting does not change the sums |
| StorageHealth.Wrap64Exactly | backend/handler_metrics.go:52-53 | the wrapped sum is the one 64-bit number that differs from the true sum by a multiple of 2^64 |
| StorageHealth.VisitAll | backend/handler_storage_health.go:198-258 | one pass over a map applies its step once to every mentioned node and to no other, in any order |
| StorageHealth.BuildStorageHealth | backend/handler_storage_health.go:168-273 | every node some answered request mentions is in the answer and no other; its entry does not depend on any map order |
| StorageHealth.FailureIsExplained | backend/handler_storage_health.go:93-104 | a failed request is explained by the fixed text, with the words of Garage behind it exactly when there are any |
| StorageHealth.JoinAppends | backend/handler_storage_health.go:268-271 | the joined text is the messages in order with a semicolon and a blank between two |
| StorageHealth.MissingResyncHasAReason | backend/handler_storage_health.go:187-203 | a missing resync value has a joined reason always, and its own reason unless Garage's message was empty |
| StorageHealth.MissingCorruptionsHaveAReason | backend/handler_storage_health.go:205-232 | likewise for a missing corruption count |
| StorageHealth.ShownIsReported | backend/handler_storage_health.go:191-226 | every value shown is what Garage reported for that node |
| StorageHealth.ShownScrubIsReported | backend/handler_storage_health.go:223-258 | last completion, scrub status and the worker-list reason come from that node's own entries |
| StorageHealth.EntryIsExact | backend/handler_storage_health.go:191-273 | the corruption count is the one reported exactly when the variables request answered with one that can be read, and the four error texts are exactly the complaints there are, in order |
| StorageHealth.ShownCountHasNoReason | backend/handler_storage_health.go:205-232 | a shown count leaves nothing to complain about but what Garage says against the node itself |
| StorageHealth.FirstScrubMeaning | backend/handler_storage_health.go:243-252 | the scrub status is that of the first scrub worker listed |
| Utf8.TruncateUtf8 | backend/middleware_audit.go:428-436 | the loop computes a prefix of at most n bytes, the longest valid one for valid text |
| Utf8.CutIsBeforeStart | backend/middleware_audit.go:432-435 | for any bytes, valid or not, the cut is in front of the last byte up to n that does not continue a sequence |
| Utf8.TruncatedIsLongest | backend/middleware_audit.go:427-436 | for valid UTF-8 the cut is the longest valid prefix that fits |
| Utf8.PrefixIsValid | backend/middleware_audit.go:432-435 | a prefix of valid UTF-8 is valid exactly when it ends before a byte that starts a sequence |
| Utf8.CodePointOfEncoded | backend/middleware_audit.go:428-436 | the encoding of every code point is one well-formed sequence, whose free bits give the code point back |
| Utf8.EncodedCodePoint | backend/middleware_audit.go:432-435 | every well-formed sequence is the encoding of its code point, so nothing else is valid UTF-8 |
| JsonText.UnquotedIsValid | backend/middleware_audit.go:276-285 | whatever bytes stand between the quotes, the decoded string is valid UTF-8 |
| JsonSpelling.ContentIsRead | backend/middleware_audit.go:276-285 | for every choice of how to write each code point (as it is, a short escape, four hexadecimal digits of either case, a surrogate pair) the decoded string is the text in UTF-8; lone halves and bad bytes become U+FFFD |
| JsonSpelling.ContentEnds | backend/middleware_audit.go:276-285 | whatever the spelling, the string ends at the quote behind it and nowhere before |
| JsonSpelling.ContentIsSpelled | backend/middleware_audit.go:276-285 | and nothing else is a string: whatever is taken for one is some choice of spellings |
| JsonSpelling.EveryTextIsWritten | backend/middleware_audit.go:276-285 | every valid text can be written as JSON and is decoded as it was |
| JsonGrammar.ScannerIsExact | backend/middleware_audit.go:242-246 | a value ends exactly where a text of the JSON grammar ends, with white space wherever the grammar allows it |
| JsonText.StringEndCut | backend/middleware_audit.go:280-282 | in a cut text a string ends where it does in the whole one, or does not end |
| JsonText.ValueCut | backend/middleware_audit.go:242-246 | in a cut text a value of any kind is the one of the whole text, or one that the cut ends |
| AuditSummary.SummarizeElements | backend/middleware_audit.go:263-286 | the token loop counts and previews exactly the items that can be read, from any start |
| AuditSummary.StringArraySummary | backend/middleware_audit.go:250-287 | the summary of a body that is the array itself |
| AuditSummary.StringsCut | backend/middleware_audit.go:265-286 | for every text and every cut: the strings read at the front of the array are the first ones of the whole text |
| AuditSummary.ReadCut | backend/middleware_audit.go:265-286 | for every text and every cut: an array that closes in the cut text is the whole one, and a cut array of strings is not taken for another |
| AuditSummary.CutSummaryIsSound | backend/middleware_audit.go:256-287 | for every body, whatever it holds, and every cut point: the summary counts only strings at the front of the array, shows the first ones, and gives a final number only for an array that closes |
| AuditSummary.WholeSummary | backend/middleware_audit.go:266-275 | a body read in full is summarised exactly when it is a closed array of strings |
| AuditSummary.ShownValuesAreLongestPrefixes | backend/middleware_audit.go:280-285 | every value shown, also from a cut body, is the longest valid UTF-8 prefix of at most 256 bytes of a string of the whole body |
| BatchBodies.ArrayTextIsRead | backend/middleware_audit.go:250-287 | for every text of an array: the audit reads its elements in order, and gives up on the first that is no string |
| BatchBodies.OnlyArraysAreRead | backend/middleware_audit.go:259-262 | a body that does not begin with a bracket has no summary |
| BatchBodies.WhereReadingStops | backend/middleware_audit.go:259-287 | where reading an array stops: at its end, or at the first element that is no string |
| BatchBodies.SpelledListIsRead | backend/middleware_audit.go:259-287 | a list of strings, however it is spaced and spelled, is read as its texts |
| AuditKeys.FindKeysField | backend/middleware_audit.go:230-247 | the field loop finds the first field called keys, skipping the values of other fields, or fails |
| AuditKeys.ExtractObjectKeys | backend/middleware_audit.go:225-248 | the summary of the array behind that field |
| AuditKeys.FindKeysCut | backend/middleware_audit.go:230-247 | in a cut body the field is found at the same place, or not at all when the cut is before it |
| AuditKeys.CutKeysSummaryIsSound | backend/middleware_audit.go:221-248 | for every batch-delete body, whatever it holds, and every cut point: the summary counts only keys at the front of the list and shows the first ones |
| AuditKeys.CutKeysAreRead | backend/middleware_audit.go:225-248 | a closed list of strings that is cut behind its bracket is still read as a list of strings |
| AuditKeys.ShownKeysAreLongestPrefixes | backend/middleware_audit.go:280-285 | the values shown are longest valid prefixes for batch-delete bodies too |
| BatchKeys.StoredHolds | backend/handler_objects.go:967-972 | what a decoded key list holds at a place: the last string that any member stored there since the list was last given up |
| BatchKeys.AuditReads | backend/middleware_audit.go:225-248 | for every body that holds a JSON value: the audit reads the first array whose member is called exactly keys, and fails on anything that is no string in it |
| BatchKeys.AuditMatchesHandler | backend/middleware_audit.go:221-248 | for every body the handler accepts: the audit line is about the list it got if and only if the first member called exactly keys is a list of strings and the members that mean keys leave just these strings |
| BatchKeys.OneKeysMember | backend/middleware_audit.go:239-246 | with one member that means keys: if and only if it is called exactly keys and is a list without null |
| BatchKeys.StringListsOnly | backend/middleware_audit.go:239-246 | with lists of strings only: if and only if the first one called exactly keys equals the last that means keys in any case |
| BatchKeys.CutAuditIsOfHandlersKeys | backend/middleware_audit.go:221-248 | under that condition the line of a body cut anywhere counts and shows keys at the front of the list that the handler got |
| BatchBodies.TextIsDecoded | backend/handler_objects.go:957-972 | for every JSON text: the list the handler gets, from all members that mean keys in any case, and the array the audit reads |
| BatchBodies.AcceptedBodyIsText | backend/handler_objects.go:967-972 | every body the handler accepts is a JSON text of an object or of null, and is decoded as that text |
| BatchBodies.AcceptedExactly | backend/handler_objects.go:957-972 | a JSON text is accepted exactly when it is null, or an object whose members that mean keys are lists of strings and nulls or null, within the size limit |
| BatchBodies.SpelledBodyIsGot | backend/handler_objects.go:957-972 | the body with one member called keys, its name and list spelled and spaced in any way: the handler gets the texts meant, and the audit reads them |
| BatchBodies.ClientBodyAgrees | backend/handler_objects.go:957-972 | an object whose only member is called keys and lists strings: handler and audit have the same list |
| BatchBodies.SecondMemberWins | backend/middleware_audit.go:239-246 | for any two lists: of two members called keys the audit line is about the first and the handler gets the second |
| BatchBodies.OtherNameIsNotLogged | backend/middleware_audit.go:239-246 | for any list under another name that the decoder takes for keys: the handler gets it and nothing is logged |
| BatchBodies.NamesForKeys | backend/handler_objects.go:957-959 | the names that the decoder takes for keys, by code points: either case, the kelvin sign for k and the long s for s |
| BatchKeys.DistinctKeys | backend/handler_objects.go:973-984 | the loop over the decoded list computes the list that the next rows describe |
| BatchKeys.FirstsFacts | backend/handler_objects.go:973-984 | no key twice, no empty one, and every other key of the list |
| BatchKeys.FirstsInOrder | backend/handler_objects.go:973-984 | in the order of the list |
| BatchKeys.FirstsCount | backend/handler_objects.go:973-984 | never more than the line counts, and as many exactly when no key is empty or comes twice |
| BatchKeys.HandleBatchDelete | backend/handler_objects.go:967-993 | which list is deleted, and the three refusals: a body that cannot be decoded, no key left, more than 10000 |
| AuditBody.Body.ReadUpTo | backend/middleware_audit.go:141-145 | reading takes a prefix and leaves the rest |
| AuditBody.CutIsSound | backend/middleware_audit.go:152-156 | for every body and cut, what is logged about the cut body is sound for the whole one |
| AuditBody.AuditDetail | backend/middleware_audit.go:126-161 | for every body: the handler behind the audit sees all of it; what is logged is sound for the whole body, and exact when it fits |
| AuditBody.CappedBuffer.Write | backend/middleware_audit.go:372-384 | keeps the first max bytes of everything written and accepts all of it |
| AuditBody.CappedBuffer.Complete | backend/middleware_audit.go:386-387 | complete exactly when nothing was cut off, and then the copy is the response |
| Disposition.Rfc8187Escape | backend/handler_objects.go:182-199 | only value characters of RFC 8187, and decoding gives the input back |
| Disposition.EscapedOne | backend/handler_objects.go:182-199 | one byte is kept exactly when it is an attr-char of RFC 8187 and is otherwise a percent sign and two hexadecimal digits of upper case |
| Disposition.EscapeConcat | backend/handler_objects.go:184-198 | the escaped form follows the bytes in order |
| Disposition.EscapeRoundTrip | backend/handler_objects.go:180-199 | the same as a statement about the escaped form of every byte string |
| Disposition.FallbackName | backend/handler_objects.go:209-225 | not empty, printable ASCII without quote or backslash, and the name itself when that needs no change |
| Disposition.FallbackOfCodePoint | backend/handler_objects.go:209-225 | character by character: a control character is dropped, a quote, a backslash and anything outside ASCII becomes an underscore, and the rest stays |
| Disposition.FallbackOfBadByte | backend/handler_objects.go:209-225 | a byte that belongs to no character gives an underscore |
| Disposition.AttachmentDisposition | backend/handler_objects.go:205-227 | the header splits back into a usable fallback and exactly the object name |
| Corruptions.Tracker.Observe | frontend/src/routes/index.tsx:478-488 | one node of a poll: baseline, history and increase |
| Corruptions.Tracker.TrackCorruptions | frontend/src/routes/index.tsx:471-491 | every node of the poll is taken in and no other changes |
| Corruptions.StepDescribes | frontend/src/routes/index.tsx:479-487 | the stored baseline always is the minimum of the known values with the first rise above it since it was first seen |
| Corruptions.ReportMeaning | frontend/src/routes/index.tsx:465-491 | an increase is reported exactly when the value is above the minimum seen, with the distance and the time of the earliest such poll |

## Left out

- HTTP routing, header forwarding, the OAuth exchange, GitHub calls, telemetry and shutdown: library and I/O plumbing.
- React rendering, routing, toasts and message texts: texts are tags, or stand-ins where only their not being empty matters.
- Scope and permission predicates, URL and CSRF checks, audit allowlists, bucket permissions: finite case splits or foreign pattern matching.
- Multipart upload streaming, compression methods, entry dates and the bytes of an archive: the transfer is in libraries.
- Cookie encoding, encryption and signing: whether a cookie decodes and whether a session can be saved are inputs.
- Locks: every method of a cache or ticket store runs under one, so it is one step.
- Listing.ListAllInfo: the memo of Garages without the endpoint is one flag, so its expiry is not modelled.
- FetchPool.FinalOutput: Go's memory model is not modelled; writes to different elements of the output are separate steps.
- FetchPool.SplitCached: the purge before it and lookups that race with other requests are one reading of the cache.
- ZipArchive.StreamBatchZip: a failure to write a header counts as the client having gone, and the text of an error line is only its key.
- ZipNames.SanitizeZipEntryName: names are characters, so keys that are not valid UTF-8 are not covered.
- UploadQueue.ObjectUploader.Settle: progress events, the abort of a running request and the joining of prefix and file name are not modelled; a promise's patch and its finally are one step.
- Session.AuthMiddleware: a response writer that cannot flush, and Unwrap, are not modelled.
- Session.HandleCallback: the avatar address is not among the values.
- Workers.FlattenWorkers: a worker's JSON is taken as decoded, with exact field names and an id whose fraction is dropped already.
- RepairGuard.StorageNodes: Garage lists a node once; for two entries with one ID the order of the unstable sort is fixed here.
- RepairGuard.GuardDestructiveRepair: the three requests are one snapshot, counters are integers, and the decoding of the repair body is an input.
- LayoutDraft.RowTakesEffect: the conversions between bytes and GiB are arbitrary functions; that the layout's zones are trimmed and its tags are ones the form can hold is required, and TagsSurviveTheForm says that this is needed.
- LayoutDraft.LayoutTotals: capacities are integers; sums beyond 2^53 are not rounded.
- Grouping and natural sorting of the layout rows: locale-aware comparison.
- StorageHealth.BuildStorageHealth: the two resync fields are Garage's as decoded, and the parsing of the corruption counter is an arbitrary function; the cache and the lock around it are not modelled.
- AuditSummary.SummarizeElements: a number that is too large for a float64 counts as an element that is not a string, where the decoder reports an error.
- JsonText.ValueCut: the decoder's nesting limit is not modelled, so a whole body nested more than 10000 levels deep counts as readable; the 4096 bytes that are read cannot reach it.
- The other audit extractors read a few fields of small bodies with the JSON decoder: nothing to prove beyond the decoder.
- Disposition.AttachmentDisposition: the reader of the header is the model's own, for headers of this form.
- Corruptions.Tracker.TrackCorruptions: counters are integers.
