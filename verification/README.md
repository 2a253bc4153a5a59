# Verified model of the MongrelDB Go client

The Go client is a thin layer over HTTP, but four parts of it carry promises that no single
function keeps alone. This project models them in Dafny and proves the promises for every
input and every run.

- **Retryable commits** (`Transaction.dfy`, `Client.dfy`, `Network.dfy`, `Protocol.dfy`,
  `Retrying.dfy`, `RetryLoop.dfy`). Operations are staged on a `Transaction` object and sent
  in one request. `Commit` sends first and becomes final only on success. The classes are
  proved against value-level steps; runs interleave any number of transactions and one-shot
  operations with a network that drops, delays and reorders requests, loses or replaces replies,
  and lets other clients work in between.
- **The canonical payload** (`Cells.dfy`, `Payload.dfy`). An idempotency key is bound to the
  request payload, and Go visits maps in random order, so the flat cells array must not depend
  on that order. Map order is an input everywhere, and the ids are sorted in place on an array.
- **Percent-escaped table names** (`Utf8.dfy`, `PercentEscape.dfy`, `Routes.dfy`), against
  sections 2.1 and 2.3 of RFC 3986 and section 3 of RFC 3629, over arbitrary byte strings.
- **Errors and queries** (`Errors.dfy`, `Conditions.dfy`, `Query.dfy`): what a failed response
  is classified as, which decides what a retry loop may retry; alias normalisation under every
  map order; and a query builder whose payloads share the backing array of a growing slice.

`Values.dfy` holds the JSON values and the notion of an iteration order.

## What is assumed

- The daemon is not part of the repository. `Network.Handle` is its documented contract
  (docs/transactions.md:70-101, client.go:618-625): a known key with an equal payload replays
  the first reply, a known key with another payload is answered 409 without effect, and any
  other request is applied whole or refused without effect. The daemon may also refuse any
  request at any time with any non-2xx status. Payload equality stands for its payload hash.
- Each POST reaches the daemon at most once, possibly late. A reply that comes through is
  unaltered; an intermediary that answers in the daemon's place sends a 5xx or a page that is
  no transaction response.
- `encoding/json` is an input: a `Body` carries its text and what each struct decoder makes of it.
- Network outcomes, map iteration orders, slice growth and other clients' traffic are
  parameters. The theorems over runs (`Protocol`, and those in `Retrying` that take events)
  hold for all of them; the others name the fates they are about.
- `sort.Slice` is modelled by an insertion sort. The ids are distinct, so any correct sort
  gives the same array (`CellFlattening.AscendingIsUnique`).

## Where the code and its documentation disagree

The model follows the code.

- docs/transactions.md:128-133 and 213-218 say a failed `Commit` puts the transaction into the
  committed state and `Rollback` then fails. Neither is so: `Transactions.FailedCommitIsRetryable`,
  `Transactions.RollbackAfterFailedCommit`.
- docs/errors.md:73-83 maps 409 to a conflict and 401 and 403 to an authentication error. A
  message that says `not found:` overrides this, and the documented retry loop then goes on
  retrying: `Errors.StatusTableHoldsUnlessMissing`, `Errors.ConflictCanReadAsNotFound`,
  `RetryLoop.WhatStopsTheLoop`.
- errors.go:122-123 says a leading byte-order mark is tolerated; such a body is never read as an
  envelope: `Errors.ByteOrderMarkNotTolerated`.
- docs/errors.md:176 says `ErrQuery` covers transport failures. Transport errors wrap no
  sentinel (`Network.Is`); the retry loop retries them all the same.

Three limits that the documentation does not mention:

- A batch applied with a reply that does not decode can never be confirmed under its key: every
  replay returns the same reply, and every retry fails (`Retrying.UndecodableReplyNeverConfirmed`).
  `Retrying.RetryThatGetsThrough` says exactly when a retry succeeds.
- `Client.Put` and `Client.Upsert` leave out the `returning` field that the staged forms write.
  A write begun one way therefore cannot be retried the other way under the same key:
  `Retrying.RetryInOtherStyleFails`.
- Table names that are not UTF-8 can share a path: `PercentEscape.EscapeNotInjectiveOnBytes`;
  `Routes.PathCollides` says exactly when.

## Model

| member | source | states |
|---|---|---|
| Protocol.ExactlyOnce | transaction.go:84-106 | In every run, at most one batch is ever applied under a non-empty key, and everyone told of success under it, by a transaction or a one-shot operation, was told of that one batch, their own, with the results its first reply's body holds |
| Protocol.FirstBatchOwnsKey | docs/transactions.md:72-75 | Once a batch is applied under a key, no continuation of the run applies another or confirms a different batch under it |
| Protocol.EverySuccessIsBacked | transaction.go:89-106 | Confirmations without a key are matched one for one by applications with the same results, counted by place in the log and among the applications (`ConfirmedByPlace`, `AnswersByPlace`); each transaction is confirmed at most once, and is committed exactly when it was told so |
| Protocol.NothingFromNowhere | docs/transactions.md:97-101 | Applied and in-flight requests together are among the requests posted, with multiplicity, so applications never outnumber attempts, with or without a key |
| Protocol.StepKeepsWorldOk | transaction.go:33-116 | Every event keeps the system invariant, and nothing recorded under a key is revised |
| Protocol.ReachableOk | transaction.go:20-116 | Every world a run can reach satisfies the system invariant, which the step lemmas below take as their only assumption about the past |
| Protocol.EventsAreCalls | transaction.go:33-116 | Every event of a run does to the world what the method it stands for does to the objects, and the log gains an entry exactly when a caller is told of success, with what it was told |
| Retrying.CommittedIsFinal | transaction.go:88-92 | After a commit, whatever else happens, every later Commit or Rollback of that transaction leaves the whole world unchanged |
| Retrying.RetryThatGetsThrough | transaction.go:97-105 | A retry that reaches the daemon and hears back succeeds exactly when its key is free or belongs to this batch and the body of the reply given holds results, and returns those; that reply is the first attempt's if it was applied |
| Retrying.UndecodableReplyBlocksKey | client.go:660-662 | Under a key whose recorded reply does not decode every exchange fails without effect, whatever is sent and whatever the network does |
| Retrying.UndecodableReplyNeverConfirmed | client.go:660-662 | Once such a reply is on record, no continuation of the run reports a success under that key |
| Retrying.StagingBetweenAttempts | transaction.go:33-103 | Between a failed commit and a later one under the same key, any events short of a rollback: nothing staged is lost; a batch that has grown is applied whole under an unused key or has no effect, and it has no effect and fails if by then the shorter one was applied |
| Retrying.RebuildStagesOps | transaction.go:27-79 | A transaction rebuilt by the same calls holds the same operations, whatever the map orders |
| Retrying.RebuildAndRetry | client.go:618-640 | Committing a rebuilt transaction under a bound key applies nothing on any fate and succeeds only as a replay of the same calls; when it gets through it is a replay exactly when the calls mean the same, and a 409 mismatch otherwise |
| Retrying.RetryInOtherStyleFails | client.go:344-372 | A write begun one-shot and retried through a transaction under the same key, or the reverse, has no effect and never succeeds |
| Retrying.KeyIsNecessary | docs/transactions.md:97-101 | One lost reply and a retry apply the batch twice without a key and once with one |
| Retrying.OtherBatchFails | client.go:621-625 | A batch other than the one its key is bound to has no effect and is never confirmed, on any fate |
| RetryLoop.CommitWithRetry | docs/transactions.md:106-125 | The loop makes one to three attempts, goes on past every non-final result and stops at the first final one; its last `return nil` is unreachable |
| RetryLoop.NilMeansSomeAttemptSucceeded | docs/transactions.md:106-125 | The loop returns nil exactly when some attempt succeeded |
| RetryLoop.RetryLoopAppliesOnce | docs/transactions.md:103-125 | Under a key, with any traffic between attempts, at most one batch is applied; on nil it is this one, once, with the results its first reply's body holds |
| RetryLoop.EveryAttemptSendsTheBatch | docs/transactions.md:103-125 | Every attempt of the loop sends one request, always the batch staged when it started |
| RetryLoop.LoopOnCommittedTransaction | transaction.go:90-92 | On a committed transaction the loop makes three attempts and sends nothing |
| RetryLoop.WhatStopsTheLoop | docs/transactions.md:109-116 | The loop stops as at a conflict exactly at a 409, and as at a failed authentication exactly at a 401 or 403, whose message does not say `not found:`; it stops at success and at nothing else |
| Transactions.Transaction.Commit | transaction.go:89-106 | The object, the network and the result move by `CommitStep`; a URL is visited only when the transaction is open and not empty |
| Transactions.Transaction.Put | transaction.go:33-42 | Appends the canonical operation, for every order the cells are visited in |
| Transactions.Transaction.Upsert | transaction.go:46-57 | Appends the canonical operation, with update cells exactly when they are not nil |
| Transactions.Transaction.Delete | transaction.go:60-68 | Appends the delete operation |
| Transactions.Transaction.DeleteByPK | transaction.go:71-79 | Appends the delete-by-key operation |
| Transactions.Transaction.Rollback | transaction.go:110-116 | Discards the operations of an open transaction; refuses on a committed one |
| Transactions.WhatCommitReturns | client.go:653-667 | A commit whose reply comes through returns the array the reply's body holds, no results for a blank body or a missing array, and an error for a body that does not decode; the body is the new reply's under a free key and the first one's under a bound key, and another batch gets a 409 |
| Transactions.CommittedRefuses | transaction.go:90-116 | A committed transaction refuses Commit and Rollback and stays as it was; an empty one commits without a request |
| Transactions.FailedCommitIsRetryable | transaction.go:97-103 | A failed commit leaves the transaction exactly as it was |
| Transactions.RollbackAfterFailedCommit | transaction.go:97-116 | Rollback after a failed commit succeeds, and a later commit sends nothing |
| Network.SuccessMeansBound | client.go:601-614 | Success under a key means the key is bound to this payload and the results are those the bound reply's body holds |
| Network.WhatTheCallerIsTold | client.go:545-585 | The result for every fate of a request: results, transport, oversized, undecodable or response error |
| Network.DecodeResultsMeaning | client.go:653-667 | Decoding returns exactly the results a body holds and fails exactly on a body that is not blank and does not decode |
| Network.WhatErrorsWrap | errors.go:60-66 | Which errors carry which sentinel |
| Network.ConflictMeansNoEffect | docs/transactions.md:194-196 | A conflict or authentication error means the attempt applied nothing |
| Network.OtherFailuresMeanNoEffect | client.go:565-585 | A failure other than no reply, an oversized or undecodable one, a 5xx, or a message saying `not found:` means the attempt applied nothing, on every network and fate |
| Network.AmbiguousFailure | docs/transactions.md:128-133 | Each of those failures, under a free key, is reported identically by a fate that applied the batch and by one that did not |
| Network.ExchangeKeepsNetOk | client.go:601-614 | One exchange keeps: a key is bound exactly to the one application made under it, and applications come from posted requests |
| ClientApi.Client.Post | client.go:545-585 | The joined URL is requested; a 2xx gives its body and anything else the typed error |
| ClientApi.Client.CommitTxn | client.go:601-614 | An empty batch is not sent; any other is exactly one exchange of its payload |
| ClientApi.Client.CommitOps | client.go:397-407 | Builds the payload, with the key only when it is not empty, posts it and decodes the results |
| ClientApi.Client.Put | client.go:344-355 | One exchange of a one-operation payload; returns the first result, or an empty one when there is none |
| ClientApi.Client.Upsert | client.go:359-372 | One exchange of a one-operation payload; returns the first result, or an empty one when there is none |
| CellFlattening.FlattenCells | client.go:626-640 | The loop and the in-place sort produce the flat form for the order visited |
| CellFlattening.SortIds | client.go:634 | The in-place sort gives the sorted sequence |
| CellFlattening.SortedEnumerates | client.go:634 | Sorting the ids of any iteration enumerates the same ids in ascending order |
| CellFlattening.FlattenIgnoresOrder | client.go:621-625 | The flat array is the same for every order of visiting the map |
| CellFlattening.FlatShape | client.go:38-41 | Twice as many elements as entries; ids strictly ascending, each value after its id |
| CellFlattening.UnflattenInvertsFlat | client.go:626-640 | An array reads back as a map exactly when it is the array that map flattens to |
| CellFlattening.FlatIsInjective | client.go:626-629 | Two cell maps flatten alike exactly when equal, nil and empty identified |
| CellFlattening.CellValue | client_test.go:801-812 | The reader is the left-to-right scan for a column id |
| CellFlattening.ScanRefinesLookup | client_test.go:801-812 | Scanning the flat form is looking the column up in the map |
| Payload.OpIgnoresOrders | transaction.go:33-57 | A staged operation does not depend on map orders |
| Payload.OpRoundTrip | transaction.go:33-79 | A staged operation reads back as the call that staged it, up to nil and empty cells |
| Payload.OpsFaithful | transaction.go:33-79 | Two call sequences stage the same operations exactly when they mean the same call by call; nil and empty update cells stay different |
| Payload.OneShotDiffersFromStaged | client.go:345-350 | No staged operation equals a one-shot put or upsert |
| Payload.OneShotRoundTrip | client.go:344-372 | A one-shot operation reads back, by a reader that accepts no other fields, as the table, cells and update cells of the call |
| Payload.OneShotFaithful | client.go:344-372 | Two one-shot calls send the same operation exactly when they mean the same, nil and empty cells identified |
| Payload.PayloadFaithful | client.go:605-608 | The request body determines the operations and the key, has no other fields, and has a key field exactly when the key is not empty |
| PercentEscape.UrlPathEscape | client.go:680-704 | The rune loop yields the byte-by-byte escape of the scrubbed segment |
| PercentEscape.EscapeRoundTrip | client.go:680-704 | Percent-decoding gives the segment back, each invalid byte replaced by U+FFFD |
| PercentEscape.EscapeLossless | client.go:680-704 | The decoder returns the segment itself exactly when it was UTF-8 |
| PercentEscape.EscapeCollides | client.go:677-679 | Two segments escape alike exactly when they scrub alike |
| PercentEscape.EscapeText | client.go:680-704 | On text the escaper is injective and distributes over concatenation |
| PercentEscape.EscapedLength | client.go:683-703 | The exact output length, for UTF-8 and for arbitrary bytes, counted over the octets of section 2.3 of RFC 3986 |
| PercentEscape.EscapeAlphabet | client.go:688-701 | The output has no characters but `%` and the unreserved ones of section 2.3 of RFC 3986, octet by octet |
| PercentEscape.EscapeOneCharacter | client.go:688-700 | An unreserved character is written as it is, any other as one upper-case triplet for each of its octets |
| PercentEscape.EscapeIdentity | client.go:688-692 | The output equals the segment exactly when every octet is one of the unreserved ones, written out |
| PercentEscape.EscapedTextsAreCanonical | client.go:681-700 | The outputs are exactly the canonical texts that decode to UTF-8: characters of section 2.3 of RFC 3986 and upper-case triplets of all other octets |
| PercentEscape.NoSlash | client.go:677-679 | No escaped segment contains a slash |
| Utf8.DecodeFirstMeaning | client.go:683 | A range step succeeds exactly where some character's octets start, and returns that character |
| Utf8.DecodeOfEncode | client.go:695 | Decoding undoes encoding, whatever follows |
| Utf8.OctetTable | client.go:695 | The table of section 3 of RFC 3629: the octets of each character and the code point they carry |
| Utf8.ScrubReplaces | client.go:683 | A byte that starts no character becomes the octets EF BF BD |
| Utf8.ScrubFixesExactlyText | client.go:683 | Scrubbing is the identity exactly on well-formed UTF-8 |
| Routes.SplitPath | client.go:316-322 | A table name never adds or removes a path segment |
| Routes.PathRoundTrip | client.go:472 | Parsing a path recovers the route and the scrubbed name, for every name |
| Routes.PathCollides | client.go:677-679 | Two routes share a path exactly when they are the same route on names that scrub alike |
| Routes.PathInjective | client.go:497 | On UTF-8 names, the empty one included, the path determines route and name |
| Routes.DropTablePath | client.go:316 | The path built is the drop route's, `/tables/NAME` |
| Routes.CountPath | client.go:322 | The path built is the count route's, `/tables/NAME/count` |
| Routes.SchemaForPath | client.go:472 | The path built is the table schema route's, `/kit/schema/NAME` |
| Routes.CompactTablePath | client.go:497 | The path built is the compaction route's, `/tables/NAME/compact` |
| Routes.JoinIsConcatenation | client.go:555 | The request URL is the configured URL less its trailing slashes, followed by the path, and the route can be read back from it |
| Routes.TrimRightMeaning | client.go:183 | Trimming removes all trailing slashes and nothing else |
| Routes.TrailingSlashIgnored | client.go:178-185 | One more trailing slash on the URL is ignored exactly when the URL was not empty |
| Routes.EndpointURLs | client.go:402 | The URLs of the transaction and query endpoints, and the paths that name no table |
| Errors.NewResponseError | errors.go:72-113 | The error object is the specified failure; its message is never empty and its sentinel is the class of its status |
| Errors.DecodeErrorEnvelope | errors.go:118-154 | Recognises a body exactly when its first non-blank character opens an object and a decoder found something |
| Errors.SentinelTable | errors.go:84-112 | Each sentinel exactly for its statuses: authentication for 401 and 403, conflict for 409, not found for 404 and for any message that says `not found:`, query for the rest |
| Errors.FailureText | errors.go:72-107 | Message, code and operation index: the nested envelope first, then the flat one, then the raw text, then the default for the status |
| Errors.DecimalReadsBack | errors.go:57 | A status is printed as its decimal numeral |
| Errors.StatusTableHoldsUnlessMissing | docs/errors.md:73-83 | A failure keeps the documented class of its HTTP status exactly when that status is 404 or the message does not say `not found:` |
| Errors.ConflictCanReadAsNotFound | errors.go:108-111 | Some 409 reads as not found |
| Errors.NamesMissingMeaning | errors.go:108 | Trimming and prefix test look only at what follows the leading white space |
| Errors.ByteOrderMarkNotTolerated | errors.go:122-130 | A body that starts with a byte-order mark is never an envelope |
| Conditions.NormalizeCondition | query.go:139-163 | The loop computes the normalised map for the order visited |
| Conditions.DocumentedAliases | docs/queries.md:274-281 | The table of aliases, name by name, with `value` one for the full-text conditions only |
| Conditions.NormalizedLookup | query.go:154-162 | A canonical key holds the value of the last parameter visited under it |
| Conditions.ConfluentUnlessClash | query.go:139-163 | The result is independent of map order exactly when no alias is given beside its canonical key with another value |
| Conditions.NormalizeIsIdempotent | query.go:139-163 | Normalising twice changes nothing, in any orders |
| Conditions.CountKept | query.go:154-162 | The number of parameters is kept exactly when no two share a canonical key |
| QueryBuilding.QueryBuilder.Where | query.go:47-52 | Extends the trace, and every payload ever handed out still encodes to the same document although the backing array is shared |
| QueryBuilding.QueryBuilder.Build | query.go:75-91 | The payload encodes to the document the trace amounts to |
| QueryBuilding.QueryBuilder.Send | query.go:97 | Posts the document of the trace to the query endpoint of the client's base URL |
| QueryBuilding.QueryBuilder.Execute | query.go:96-116 | One request, the document of the trace, is posted to the query endpoint; the flag follows only answers that decode, and the result is the answer's rows or error |
| QueryBuilding.RequestReadsBack | query.go:75-91 | A reader of the document, which accepts no other fields, finds the table, all conditions in call order, and the last column list, limit and offset asked for, each under its own name |
| QueryBuilding.FieldsPresent | query.go:75-91 | A field is present exactly when some call set it |
| QueryBuilding.SameRequestMeaning | query.go:75-91 | Two builders build the same document exactly when their calls asked for the same |
| QueryBuilding.QueryBuilder.Truncated | query.go:118-120 | The flag of the last Execute that decoded, false before any |
| QueryBuilding.TruncatedMeaning | query.go:112-120 | The flag is set exactly when the last answer that decoded was a truncated document |
| QueryBuilding.IndependentCallsCommute | query.go:47-72 | Calls that touch different things commute |
| QueryBuilding.LastSetterWins | query.go:54-72 | An earlier call of the same setter leaves no trace |
| QueryBuilding.FailedExecuteLeavesNoTrace | query.go:96-111 | A failed or undecodable Execute changes neither the next request nor the flag |

## Left out

- HTTP itself: contexts, time-outs, headers, authentication, body limits and redirects; their outcomes are the network's fates.
- JSON syntax: two Go values that encode to the same JSON are one value here, and a NaN that cannot be encoded is an unsent request.
- Strings inside payloads are well-formed text; `encoding/json` replaces bytes that are not UTF-8, which this model does not capture. Table names in paths are arbitrary bytes.
- Cell, key and parameter values are immutable here; a caller that mutates one through a shared reference after staging is not modelled, nor a column slice mutated after `Projection`, nor a copied builder struct.
- A `*ResponseError` travels through the client as its value; object identity and `errors.As` are not modelled.
- CellFlattening.CellValue: the reader takes integers only; Go's conversion of a float64 id is not modelled, because ids are written as int64.
- Dot segments: a table named `.` or `..` is escaped to itself, and what URL processors make of it is not modelled.
- A one-shot put or upsert returns the first of the results; `Protocol` logs them all.
- The reply to a query is an input of `Execute`; queries do not touch the daemon's state, so they are not part of the runs.
- `Client.Delete` and `Client.DeleteByPK` send the operations the staged forms send, without a key; they would add only easy members.
- SQL, search, retrieval, durable queries, history retention, schema decoding and `Health`: field copying and single requests.
- Values of columns on creation (`Column.MarshalJSON`) and index options: a short precedence chain.
