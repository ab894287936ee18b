# slackVenn list logic in Dafny

slackVenn compares the member lists of two Slack channels. It reports the
members in both channels, the members only in the first, and the members
only in the second. This project models the computational part of the tool
and proves properties about it:

- `getChannelMembers` is the cursor-driven listing of a channel's members.
  The Slack client becomes an oracle function from a request (channel,
  cursor, page limit 1000) to a page or an error.
- `userIDToName` resolves each identifier to a display name, with `"unknown"`
  as the fallback. The user lookup is an oracle from an identifier to a
  name or an error.
- `difference` and `intersection` are the two list operations.
- The test helpers are `removeDuplicates`, `generateLargeUserList` and
  `slicesEqual`. The test vectors and the edge-case sanity check
  (common + only-A + only-B equals the number of distinct members) are
  stated as lemmas.

Each Go function that loops becomes a Dafny `method` with the same loops.
Go's `map[string]bool` and `map[string]int` become local `map`s that the
loop reassigns, read through `Has` and `CountOf` with Go's zero-value
semantics. Each method is proved equal to a specification function, or
states its result outright in its `ensures`. The lemmas beside the
methods say what those functions mean: filters and multiplicities,
subsequences, distinctness, sets of elements, and uniqueness of a
listing.

Files:

- `seqs.dfy` (module `Seqs`): distinctness, element sets and subsequences.
- `set_ops.dfy` (module `SetOps`): `difference` and `intersection`.
- `slack_api.dfy` (module `SlackApi`): the values exchanged with the remote
  service, and the oracle types.
- `members.dfy` (module `Members`): `getChannelMembers`.
- `names.dfy` (module `Names`): `userIDToName`.
- `test_helpers.dfy` (module `TestHelpers`): the test helpers.
- `test_vectors.dfy` (module `TestVectors`): the tests' checks.

`intersection(a, b)` builds its map from `a` and scans `b`. Its result
therefore follows `b`'s order and keeps `b`'s repetitions, not the order
of the first argument that the name suggests. The Go tests compare
results as multisets, so they cannot tell the two orders apart.

## Model

| member | source | states |
|---|---|---|
| `SetOps.Select` | tests/main.go:51-57 | the filtered list is never longer than the scanned list |
| `SetOps.Difference` | tests/main.go:46-58 | the result is the list of members of `a` that are not in `b`, in `a`'s order, with `a`'s repetitions (`Minus(a, b)`) |
| `SetOps.Intersection` | tests/main.go:60-72 | the result is the list of members of `b` that are in `a`, in `b`'s order, with `b`'s repetitions (`Common(a, b)`) |
| `SetOps.DifferenceIsFilter` | tests/main.go:46-58 | each member occurs in the difference as often as in `a` when it is outside `b`, and not at all otherwise; membership holds iff the member is in `a` and not in `b`; the difference is a subsequence of `a`; the difference is at most as long as `a` |
| `SetOps.DifferenceBoundaries` | tests/main_test.go:22-39 | an empty `a` gives empty; the difference is empty iff every member of `a` is in `b`; the difference is all of `a` iff no member of `a` is in `b` |
| `SetOps.DifferenceIdempotent` | tests/main.go:46-58 | taking the difference with the same `b` a second time changes nothing |
| `SetOps.IntersectionIsFilter` | tests/main.go:60-72 | each member occurs in the intersection as often as in `b` when it is in `a`, and not at all otherwise; membership holds iff the member is in both lists; the intersection is a subsequence of `b`; the intersection is at most as long as `b` |
| `SetOps.IntersectionBoundaries` | tests/main.go:63-69 | an empty `a` or an empty `b` gives empty; the intersection is empty iff no member of `b` is in `a`; the intersection is all of `b` iff every member of `b` is in `a` |
| `SetOps.CommonAndMinusDisjoint` | tests/main.go:46-72 | no member is both in `intersection(a, b)` and in `difference(a, b)` |
| `SetOps.PartitionCount` | tests/mock_test.go:95-100 | if `b` and the difference `a` minus `b` have no repetitions, the sizes of the three groups add up to the number of distinct members of `a ++ b` |
| `SetOps.PartitionCountDistinct` | tests/mock_test.go:95-100 | the same count for two duplicate-free lists |
| `Members.GetChannelMembers` | tests/main.go:11-31 | the result equals `Listing`, a page-by-page reference definition: an error at any page gives that error and no members, and otherwise each page's identifiers come before those of the pages after it. On success, the members are the concatenation of the pages received, and those pages form a complete listing: the first request has the empty cursor, each later request has the previous page's next cursor, the limit is 1000, and only the last page has an empty next cursor. On an error, only the error is returned, and it is the service's answer to the request after the pages received so far |
| `Members.RunIsDetermined` | tests/main.go:13-28 | in the model, where the listing oracle answers each request the same way every time, the oracle fixes the listing: there is at most one complete listing, a complete listing excludes every failed one, and two failed listings have the same pages and the same error; so the result of `GetChannelMembers` is unique |
| `Members.RunsHalt` | tests/main.go:14-29 | every listing that ends, completely or with an error, meets `GetChannelMembers`'s termination precondition |
| `Members.CyclingCursorNeverHalts` | tests/main.go:14-29 | a service that answers a non-empty cursor with that same cursor as the next one never lets the loop end: `Halts` fails for every number of requests |
| `Names.UserIdToName` | tests/main.go:33-44 | the keys of the result are exactly the input identifiers; each value is the looked-up name when the lookup succeeds and `"unknown"` when it fails, whatever the other lookups answer |
| `TestHelpers.RemoveDuplicates` | tests/mock_test.go:116-127 | the result is `Dedup(slice)`: the first occurrence of each element, in order |
| `TestHelpers.DedupDistinctSameElements` | tests/mock_test.go:117-125 | the result has no repeated element and has the same set of elements as the input |
| `TestHelpers.DedupSubsequence` | tests/mock_test.go:120-125 | the result is a subsequence of the input |
| `TestHelpers.DedupFirstOccurrences` | tests/mock_test.go:120-125 | elements keep the order of their first occurrences: the result for any prefix of the input is a prefix of the whole result and holds exactly that prefix's elements |
| `TestHelpers.DedupFixesDistinct` | tests/mock_test.go:116-127 | the input comes back unchanged iff it has no duplicates |
| `TestHelpers.DedupLength` | tests/mock_test.go:116-127 | the result's length equals the number of distinct elements of the input; it is at most the input's length, with equality iff the input is duplicate-free |
| `TestHelpers.DedupIdempotent` | tests/mock_test.go:116-127 | removing duplicates twice gives the same result as removing them once |
| `TestHelpers.GenerateLargeUserList` | tests/mock_test.go:107-113 | the result has length `size`, and element `i` is `UserAt(i)`, which depends on `i` only |
| `TestHelpers.UserList` | tests/mock_test.go:108-112 | the generated list for `n` has length `n` |
| `TestHelpers.UserAtEqual` | tests/mock_test.go:110 | two indices give the same name iff they agree modulo 676, so the generator yields 676 distinct names and then repeats them |
| `TestHelpers.UserListDistinct` | tests/mock_test.go:108-112 | a generated list of at most 676 names has no repeated name |
| `TestHelpers.UserListPrefix` | tests/mock_test.go:109-110 | the list for `n` is a prefix of the list for every `m >= n` |
| `TestHelpers.SlicesEqual` | tests/main_test.go:97-114 | returns false when the lengths differ, and true iff the two lists are equal as multisets (so the test helper is reflexive and symmetric) |
| `TestHelpers.CountMapsAgree` | tests/main_test.go:103-113 | two count maps that hold exactly the multiplicities of their lists are equal iff the lists are equal as multisets |
| `TestVectors.SanityCheck` | tests/mock_test.go:95-100 | the edge-case check, with `removeDuplicates` as in the test: common + only-A + only-B equals the length of the de-duplicated concatenation, when `b` and the difference `a` minus `b` have no repetitions |
| `TestVectors.SanityCheckNeedsDistinctB` | tests/mock_test.go:95-100 | without that hypothesis the check fails: for `a = ["U1"]` and `b = ["U1", "U1"]` the total is 2 and the number of distinct members is 1 |
| `TestVectors.DifferenceSimpleVector` | tests/main_test.go:16-21 | `difference(["alice","bob","charlie"], ["bob","david"])` is `["alice","charlie"]`, exactly and as multisets |
| `TestVectors.DifferenceBoundaryVectors` | tests/main_test.go:22-39 | the "no difference", "empty first array" and "all different" vectors hold exactly |
| `TestVectors.IntersectionSimpleVector` | tests/main_test.go:60-65 | `intersection(["alice","bob","charlie"], ["bob","charlie","david"])` is `["bob","charlie"]`, exactly and as multisets |
| `TestVectors.IntersectionBoundaryVectors` | tests/main_test.go:66-83 | the "no intersection", "empty arrays" and "complete intersection" vectors hold exactly |
| `TestVectors.MockCommon` | tests/mock_test.go:16-35 | for the mock channels `MockChannelA` and `MockChannelB` (the member lists of the two mock channels), alice and bob are the members of both mock channels |
| `TestVectors.MockOnlyA` | tests/mock_test.go:16-43 | for the same mock channels, charlie and david are the members only in the first mock channel |
| `TestVectors.MockOnlyB` | tests/mock_test.go:16-51 | for the same mock channels, emma is the only member only in the second mock channel |
| `TestVectors.SmallEdgeCases` | tests/mock_test.go:62-100 | the sanity check holds for two empty channels, for one empty channel, and for two identical channels |
| `TestVectors.LargeEdgeCase` | tests/mock_test.go:80-100 | the sanity check holds for 1000 against 500 generated names; the 1000 names contain repetitions, but every repeated name is among the 500 |

## Left out

- `main` (tests/main.go:74-131) is left out. It reads the token from the environment, checks the arguments, exits through `log.Fatal` and prints the report. All of this is I/O.
- The Slack client is not modelled. `GetUsersInConversation` and `GetUserInfo` become oracle parameters (`SlackApi.ListMembers`, `SlackApi.GetUserName`). Errors are carried as strings.
- Members.GetChannelMembers: the Go loop has no bound and runs forever if the service keeps returning non-empty cursors. The method therefore requires `Halts`: the listing must end within a ghost number of requests. `Members.RunsHalt` shows that every listing that ends meets this precondition. The pages received are a ghost output.
- Members.GetChannelMembers: the listing service is a function of the request, so it answers a repeated request the same way every time. A real service whose answer to a repeated cursor changes, and so lets the Go loop end after a cycle, falls outside `Halts`; `Members.RunIsDetermined` holds because of this choice, not because of the Go code. `Members.CyclingCursorNeverHalts` shows that, within the model, a cursor that comes back unchanged never ends the listing, which is what the Go loop does against such a service.
- TestHelpers.GenerateLargeUserList: the size is a `nat`. A negative size makes Go's `make` panic, and that panic is not modelled.
- Names.UserIdToName: the lookup is a function, so a repeated identifier gets the same answer each time. In Go, a repeated identifier is looked up again, and the last answer wins.
- The model does not keep Go's distinction between a nil slice and an empty slice: `difference`, `intersection` and `removeDuplicates` return nil when nothing qualifies, and here that is `[]`.
- The test harness is left out: `t.Run`, `t.Errorf`, `t.Logf`, `TestMockPerformance` and the benchmarks (tests/main_test.go:117-145) only time and report.
- Go strings are byte strings and Dafny strings are character sequences. The model only compares strings for equality, so the difference does not matter.
