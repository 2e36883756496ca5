# Level-N follows solver

This project models the solver of the webhook service, `WebhookService.solveProblem`. The solver receives a payload of users and answers one question: which ids are exactly `n` hops from `findId` along the directed "follows" edges? Each user carries an id and the ids it follows.

The solver runs in four phases, and the model keeps each as its own method:

1. **Lookup.** It fills an id -> user lookup, and a later user with the same id replaces an earlier one (`BuildUserMap`, specified by the function `UserMap`).
2. **Search.** It runs a breadth-first search from `findId` with three mutable pieces of state, which the model keeps as local variables updated in a `while` loop: a visited set, a FIFO queue and a level map.
   - A dequeued id whose level has reached `n` is not expanded.
   - An id without a user entry is not expanded either: it is a dead end.
   - Otherwise each follow not yet visited is marked visited, given the next level and enqueued (`ExpandFollows`, specified by `NewIds`).
3. **Collect and sort.** It collects every id levelled exactly `n`, in the map's unspecified iteration order (`CollectAtLevel`). Then it sorts them ascending in place (`SortAscending`, on an array).
4. **Wrap.** It returns them as the single inner list of the outcome (`SolveProblem`).

The search is proved against an independent definition of distance, in module `FollowGraph`:
- `WithinHops(g, s, v, k)` holds when some walk along follows edges leads from `s` to `v` in at most `k` hops.
- `IsDistance(g, s, v, k)` holds when `k` is the least such hop count.

On return from `Bfs`, the levelled ids are exactly those within `max(n, 0)` hops, and each id's level is its shortest hop count. From this, `SolveProblem` proves what the service promises:
- the outcome holds exactly one inner list;
- that list is strictly increasing;
- it holds exactly the ids at distance `n`;
- for `n == 0` it is `[[findId]]`, whatever the edges, even when `findId` has no user entry.

`n` is an `int` as in the code. For a negative `n` the start is never expanded and no id has level `n`, so the outcome is `[[]]`. The code does not reject a negative `n`, and the model follows it.

Modules:
- `FollowGraph`: the payload, the lookup type, walks and hop counts.
- `Sorting`: order predicates and the in-place sort.
- `WebhookService`: the solver's phases and the proofs of the search's invariant.

## Model

| member | source | states |
|---|---|---|
| FollowGraph.StartWithin | src/main/java/com/example/webhookapp/service/WebhookService.java:90-93 | the start is within 0 hops of itself, which is why it is levelled 0 before the loop |
| FollowGraph.StepWithin | src/main/java/com/example/webhookapp/service/WebhookService.java:110-115 | following one edge out of an id within k hops lands within k + 1 hops, the level a follow is given |
| FollowGraph.LastHop | src/main/java/com/example/webhookapp/service/WebhookService.java:96-118 | an id within k + 1 hops is within k hops already, or is followed by an id within k hops that has a user entry |
| FollowGraph.HopsRecurrence | src/main/java/com/example/webhookapp/service/WebhookService.java:96-118 | the ids within k + 1 hops are exactly those within k hops plus the follows of users within k hops: the layers the search visits, both directions |
| FollowGraph.WithinHopsInIds | src/main/java/com/example/webhookapp/service/WebhookService.java:96-118 | every reachable id is the start or a followed id, so the search's work is finite even on cyclic graphs; within 0 hops only the start |
| FollowGraph.DistanceUnique | src/main/java/com/example/webhookapp/service/WebhookService.java:111-115 | an id has a single shortest hop count, so the first level assigned to it can be final |
| FollowGraph.ParentOnPreviousLevel | src/main/java/com/example/webhookapp/service/WebhookService.java:100-115 | every id at distance k + 1 is a follow of an id at distance k that has a user entry; an id without one is a dead end and nobody's parent |
| Sorting.SortAscending | src/main/java/com/example/webhookapp/service/WebhookService.java:128-129 | the array ends ascending and is a permutation of its old contents |
| Sorting.DistinctPermutation | src/main/java/com/example/webhookapp/service/WebhookService.java:120-129 | sorting a duplicate-free list leaves it duplicate-free |
| Sorting.StrictlyAscendingUnique | src/main/java/com/example/webhookapp/service/WebhookService.java:128-129 | two increasing lists with the same members are equal, so the sorted outcome does not depend on the map's iteration order |
| WebhookService.UserMap | src/main/java/com/example/webhookapp/service/WebhookService.java:79-83 | the lookup has exactly one key per user id, and each key maps to a user of the list carrying that id |
| WebhookService.UserMapLastWins | src/main/java/com/example/webhookapp/service/WebhookService.java:79-83 | when several users share an id, the last of them is the one the lookup keeps |
| WebhookService.BuildUserMap | src/main/java/com/example/webhookapp/service/WebhookService.java:79-83 | the loop that puts the users one by one into the lookup builds exactly `UserMap(users)` |
| WebhookService.LevelAtMost | src/main/java/com/example/webhookapp/service/WebhookService.java:96-118 | an id within k hops has a distance of at most k |
| WebhookService.LevelWithin | src/main/java/com/example/webhookapp/service/WebhookService.java:96-118 | an id whose exact level is at most k is within k hops |
| WebhookService.DiscoverAll | src/main/java/com/example/webhookapp/service/WebhookService.java:110-115 | giving the unvisited follows of an id at level d the level d + 1 keeps every level equal to the shortest hop count, once every id within d hops has a level |
| WebhookService.Coverage | src/main/java/com/example/webhookapp/service/WebhookService.java:96-118 | if every id levelled below j has been dequeued and every dequeued id below n has had its follows levelled, then every id within j hops has a level |
| WebhookService.NewIds | src/main/java/com/example/webhookapp/service/WebhookService.java:110-117 | the ids one pass over the follows enqueues: duplicate-free, and exactly the follows not yet visited |
| WebhookService.ExpandFollows | src/main/java/com/example/webhookapp/service/WebhookService.java:110-117 | visited stays the key set of levels; the queue grows by `NewIds`; old levels are unchanged; each new id gets the next level |
| WebhookService.BfsStart | src/main/java/com/example/webhookapp/service/WebhookService.java:85-93 | the initial state, with findId visited, levelled 0 and enqueued, satisfies the search invariant |
| WebhookService.BfsDequeue | src/main/java/com/example/webhookapp/service/WebhookService.java:96-98 | the polled id has a level, was not dequeued before, and is one of the finitely many reachable ids |
| WebhookService.BfsSkip | src/main/java/com/example/webhookapp/service/WebhookService.java:100-108 | dequeuing an id at level >= n, or one without a user entry, without expanding it keeps the invariant |
| WebhookService.QueueOrderAfterExpand | src/main/java/com/example/webhookapp/service/WebhookService.java:110-116 | appending ids one level above the head keeps the queue's levels non-decreasing and within one level of each other |
| WebhookService.ExpandDistinct | src/main/java/com/example/webhookapp/service/WebhookService.java:111-115 | the visited guard keeps every id enqueued at most once |
| WebhookService.ExpandKeepsExpanded | src/main/java/com/example/webhookapp/service/WebhookService.java:110-116 | after an expansion, every dequeued id below n, the expanded one included, has all its follows levelled |
| WebhookService.BfsExpand | src/main/java/com/example/webhookapp/service/WebhookService.java:96-117 | dequeuing an id below n that has a user entry and levelling its unvisited follows keeps the invariant, including exact levels |
| WebhookService.BfsFinish | src/main/java/com/example/webhookapp/service/WebhookService.java:96-118 | with an empty queue, the levelled ids are exactly those within max(n, 0) hops, each at its shortest hop count |
| WebhookService.Bfs | src/main/java/com/example/webhookapp/service/WebhookService.java:85-118 | the search terminates; its level map holds exactly the ids within max(n, 0) hops, each with its shortest hop count, none above max(n, 0) |
| WebhookService.BfsParent | src/main/java/com/example/webhookapp/service/WebhookService.java:100-115 | in the search's outcome, every id levelled k + 1 is a follow of an id levelled k that has a user entry: an id without one is a dead end and is never a parent |
| WebhookService.DistinctAppend | src/main/java/com/example/webhookapp/service/WebhookService.java:111-115 | joining two duplicate-free lists with no id in common gives a duplicate-free list |
| WebhookService.CollectAtLevel | src/main/java/com/example/webhookapp/service/WebhookService.java:120-126 | in any iteration order, the collected list is duplicate-free and holds exactly the ids levelled n |
| WebhookService.SolveProblem | src/main/java/com/example/webhookapp/service/WebhookService.java:74-136 | one inner list, strictly increasing, holding exactly the ids whose shortest hop count from findId is n; `[[findId]]` for n == 0 and `[[]]` for negative n |

## Left out

- `init` and `processWebhook` (WebhookService.java:29-51) are left out. They are startup orchestration over reactive streams.
- `generateWebhookToken` (WebhookService.java:53-72) and `sendSolutionToWebhook` (WebhookService.java:138-153) are left out. They are HTTP calls.
- Retry and backoff policies (lines 46-48 and 53-56) are left out. They are library configuration driven by wall-clock time.
- Logging, the hard-coded registration constants and the request DTO (lines 155-162) are left out. They carry no logic.
- Ids and `n` are unbounded `int`s, not 32-bit. The only arithmetic is `currentLevel + 1`, and that happens only when `currentLevel < n`, so it never exceeds `n` and cannot wrap.
- Null inputs are not modelled: the model has no null, and users, ids and follows are always present. In the code:
  - a null `usersData` (WebhookService.java:75), user list (line 81) or user (line 82) always throws a NullPointerException;
  - a null follows list, or a null id inside one, throws only when its user is the one kept in the lookup and is expanded, that is, dequeued below level `n` (lines 101-111, the unboxing into `int followerId` at line 111);
  - an unexpanded user's null follows list throws nothing.
- The iteration order of the `HashMap` is not modelled. `CollectAtLevel` picks keys in an arbitrary order, and its contract holds for every order.
- The algorithm of `Collections.sort` is not modelled. An insertion sort on an array stands in for it. Only its result is claimed: ascending, and a permutation of the input. That result is unique by `StrictlyAscendingUnique`.
- The outcome is returned as a sequence value, not as mutable nested `ArrayList`s. The identity of those lists is not modelled.
