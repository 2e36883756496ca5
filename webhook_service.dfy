/**
 The level-N solver of the webhook service: from the users, a start id and a
 target hop count n, it builds an id -> user lookup, runs a breadth-first search
 that stops expanding at level n, collects the ids whose level is exactly n,
 sorts them ascending and wraps them as the single inner list of the outcome.
 */
module WebhookService {
  import opened FollowGraph
  import opened Sorting

  /** The lookup the solver builds: one key per user id; when several users
      share an id, a later one replaces an earlier one. */
  function UserMap(users: seq<User>): (m: Lookup)
    ensures m.Keys == set u | u in users :: u.id
    ensures forall id :: id in m ==> m[id] in users && m[id].id == id
  {
    if users == [] then map[]
    else
      var last := users[|users| - 1];
      assert users == users[..|users| - 1] + [last];
      UserMap(users[..|users| - 1])[last.id := last]
  }

  /** The last user carrying an id is the one the lookup keeps. */
  lemma {:induction false} UserMapLastWins(users: seq<User>, i: nat)
    requires i < |users|
    requires forall j :: i < j < |users| ==> users[j].id != users[i].id
    ensures users[i].id in UserMap(users) && UserMap(users)[users[i].id] == users[i]
  {
    if i < |users| - 1 {
      var init := users[..|users| - 1];
      assert init[i] == users[i];
      UserMapLastWins(init, i);
    }
  }

  /** Fills the lookup one user at a time, in list order. */
  method BuildUserMap(users: seq<User>) returns (userMap: Lookup)
    ensures userMap == UserMap(users)
  {
    userMap := map[];
    for i := 0 to |users|
      invariant userMap == UserMap(users[..i])
    {
      assert users[..i + 1][..i] == users[..i];
      userMap := userMap[users[i].id := users[i]];
    }
    assert users[..|users|] == users;
  }

  /** Every follow of u already has a level. */
  ghost predicate Expanded(g: Lookup, levels: map<int, int>, u: int)
  {
    forall v :: v in Follows(g, u) ==> v in levels
  }

  /** Every level assigned so far is the id's shortest hop count from s. */
  ghost predicate LevelsExact(g: Lookup, s: int, levels: map<int, int>)
  {
    forall v {:trigger IsDistance(g, s, v, levels[v])} :: v in levels ==> IsDistance(g, s, v, levels[v])
  }

  /** The deepest level the search assigns: n, or 0 when n is negative. */
  function Depth(n: int): nat
  {
    if n < 0 then 0 else n
  }

  /** An id within k hops has a distance of at most k. */
  lemma LevelAtMost(g: Lookup, s: int, u: int, d: int, k: nat)
    requires IsDistance(g, s, u, d)
    requires WithinHops(g, s, u, k)
    ensures d <= k
  {
  }

  /** An id levelled at most k is within k hops. */
  lemma LevelWithin(g: Lookup, s: int, levels: map<int, int>, v: int, k: nat)
    requires LevelsExact(g, s, levels)
    requires v in levels && levels[v] <= k
    ensures WithinHops(g, s, v, k)
  {
    assert IsDistance(g, s, v, levels[v]);
  }

  /** Levelling the not yet levelled follows of an id at level d with d + 1
      keeps every level exact, provided every id within d hops already has a
      level. */
  lemma DiscoverAll(g: Lookup, s: int, levels: map<int, int>, current: int, d: nat, added: seq<int>, levels': map<int, int>)
    requires LevelsExact(g, s, levels)
    requires current in levels && levels[current] == d
    requires forall v :: WithinHops(g, s, v, d) ==> v in levels
    requires forall v :: v in added ==> v in Follows(g, current)
    requires forall v :: v in levels' <==> v in levels || v in added
    requires forall v :: v in levels ==> levels'[v] == levels[v]
    requires forall v :: v in added && v !in levels ==> levels'[v] == d + 1
    ensures LevelsExact(g, s, levels')
  {
    assert IsDistance(g, s, current, levels[current]);
    forall w | w in levels'
      ensures IsDistance(g, s, w, levels'[w])
    {
      if w in levels {
        assert IsDistance(g, s, w, levels[w]);
      } else {
        StepWithin(g, s, d, current, w);
      }
    }
  }

  /** The search's coverage argument: if every id levelled below j has been
      dequeued, and every dequeued id below level n has had its follows
      levelled, then every id within j hops has a level. */
  lemma {:induction false} Coverage(g: Lookup, s: int, levels: map<int, int>, done: seq<int>, n: int, j: nat)
    requires s in levels
    requires LevelsExact(g, s, levels)
    requires forall u :: u in levels && levels[u] < j ==> u in done
    requires forall u :: u in done && u in levels && levels[u] < n ==> Expanded(g, levels, u)
    requires j == 0 || j <= n
    ensures forall v :: WithinHops(g, s, v, j) ==> v in levels
  {
    if j == 0 {
      forall v | WithinHops(g, s, v, 0)
        ensures v in levels
      {
        WithinHopsInIds(g, s, v, 0);
      }
    } else {
      Coverage(g, s, levels, done, n, j - 1);
      forall v | WithinHops(g, s, v, j)
        ensures v in levels
      {
        LastHop(g, s, v, j - 1);
        if !WithinHops(g, s, v, j - 1) {
          var u :| u in g && v in g[u].follows && WithinHops(g, s, u, j - 1);
          assert IsDistance(g, s, u, levels[u]);
          LevelAtMost(g, s, u, levels[u], j - 1);
        }
      }
    }
  }

  /** The follows not yet seen, each once, in the order of their first
      occurrence: the ids a pass over the follows marks visited and enqueues. */
  function NewIds(follows: seq<int>, seen: set<int>): (r: seq<int>)
    ensures Distinct(r)
    ensures forall v :: v in r <==> v in follows && v !in seen
  {
    if follows == [] then []
    else
      var r0 := NewIds(follows[..|follows| - 1], seen);
      var x := follows[|follows| - 1];
      assert follows == follows[..|follows| - 1] + [x];
      if x in seen || x in r0 then r0 else r0 + [x]
  }

  /** One pass over the follows of a dequeued id: each follow not yet visited
      is marked visited, given the next level and appended to the queue; the
      levels already assigned stay as they were. */
  method ExpandFollows(follows: seq<int>, level: int, visited: set<int>, queue: seq<int>, levels: map<int, int>)
    returns (visited': set<int>, queue': seq<int>, levels': map<int, int>)
    requires visited == levels.Keys
    ensures visited' == levels'.Keys
    ensures queue' == queue + NewIds(follows, visited)
    ensures forall v :: v in levels' <==> v in levels || v in NewIds(follows, visited)
    ensures forall v :: v in levels ==> levels'[v] == levels[v]
    ensures forall v :: v in NewIds(follows, visited) ==> levels'[v] == level
  {
    visited', queue', levels' := visited, queue, levels;
    for i := 0 to |follows|
      invariant visited' == levels'.Keys
      invariant queue' == queue + NewIds(follows[..i], visited)
      invariant forall v :: v in levels' <==> v in levels || v in NewIds(follows[..i], visited)
      invariant forall v :: v in levels ==> levels'[v] == levels[v]
      invariant forall v :: v in NewIds(follows[..i], visited) ==> levels'[v] == level
    {
      var followerId := follows[i];
      assert follows[..i + 1][..i] == follows[..i];
      if followerId !in visited' {
        visited' := visited' + {followerId};
        levels' := levels'[followerId := level];
        queue' := queue' + [followerId];
      }
    }
    assert follows[..|follows|] == follows;
  }

  /** What holds of the search at the head of every iteration: done holds the
      dequeued ids in order, queue the waiting ones, and levels their levels. */
  ghost predicate BfsInvariant(g: Lookup, s: int, n: int, done: seq<int>, queue: seq<int>, levels: map<int, int>)
  {
    && s in levels
    && (forall v :: v in levels ==> 0 <= levels[v] <= Depth(n))
    && LevelsExact(g, s, levels)
    // every levelled id has been enqueued exactly once: it is done or still waiting
    && (forall v :: v in levels <==> v in done || v in queue)
    && (forall i :: 0 <= i < |queue| ==> queue[i] in levels)
    && Distinct(done + queue)
    // levels along the queue are non-decreasing and span at most one level
    && (forall i, j :: 0 <= i < j < |queue| ==> levels[queue[i]] <= levels[queue[j]] <= levels[queue[i]] + 1)
    // every dequeued id below level n has had its follows levelled
    && (forall u :: u in done && u in levels && levels[u] < n ==> Expanded(g, levels, u))
  }

  /** The search starts with findId alone, levelled 0 and enqueued. */
  lemma BfsStart(g: Lookup, s: int, n: int)
    ensures BfsInvariant(g, s, n, [], [s], map[s := 0])
  {
    var levels := map[s := 0];
    StartWithin(g, s);
    assert IsDistance(g, s, s, levels[s]);
  }

  /** The id at the head of the queue has not been dequeued before and is one
      of the finitely many ids reachable from s, so each dequeue shrinks what
      is left to visit. */
  lemma BfsDequeue(g: Lookup, s: int, n: int, done: seq<int>, queue: seq<int>, levels: map<int, int>)
    requires BfsInvariant(g, s, n, done, queue, levels)
    requires queue != []
    ensures queue[0] in levels && queue[0] !in done
    ensures queue[0] in Ids(g, s)
  {
    assert forall k :: 0 <= k < |done| ==> (done + queue)[k] == done[k];
    assert (done + queue)[|done|] == queue[0];
    LevelWithin(g, s, levels, queue[0], Depth(n));
    WithinHopsInIds(g, s, queue[0], Depth(n));
  }

  /** Dequeuing an id that is not expanded (its level has reached n, or it has
      no user entry) keeps the invariant. */
  lemma BfsSkip(g: Lookup, s: int, n: int, done: seq<int>, queue: seq<int>, levels: map<int, int>)
    requires BfsInvariant(g, s, n, done, queue, levels)
    requires queue != []
    requires !(levels[queue[0]] < n && queue[0] in g)
    ensures BfsInvariant(g, s, n, done + [queue[0]], queue[1..], levels)
  {
    assert done + [queue[0]] + queue[1..] == done + queue;
    forall i, j | 0 <= i < j < |queue[1..]|
      ensures levels[queue[1..][i]] <= levels[queue[1..][j]] <= levels[queue[1..][i]] + 1
    {
      assert queue[1..][i] == queue[i + 1] && queue[1..][j] == queue[j + 1];
    }
  }

  /** Appending ids one level above the head to the rest of a queue whose
      levels are non-decreasing and span at most one level keeps both facts. */
  lemma QueueOrderAfterExpand(levels: map<int, int>, levels': map<int, int>, queue: seq<int>, added: seq<int>)
    requires queue != []
    requires forall i :: 0 <= i < |queue| ==> queue[i] in levels
    requires forall i, j :: 0 <= i < j < |queue| ==> levels[queue[i]] <= levels[queue[j]] <= levels[queue[i]] + 1
    requires forall v :: v in levels ==> v in levels' && levels'[v] == levels[v]
    requires forall v :: v in added ==> v in levels' && levels'[v] == levels[queue[0]] + 1
    ensures forall i :: 0 <= i < |queue[1..] + added| ==> (queue[1..] + added)[i] in levels'
    ensures forall i, j :: 0 <= i < j < |queue[1..] + added| ==>
      levels'[(queue[1..] + added)[i]] <= levels'[(queue[1..] + added)[j]] <= levels'[(queue[1..] + added)[i]] + 1
  {
    var rest := queue[1..];
    var q := rest + added;
    var d := levels[queue[0]];
    forall k | 0 <= k < |q|
      ensures q[k] in levels'
      ensures k < |rest| ==> levels'[q[k]] == levels[queue[k + 1]]
      ensures k >= |rest| ==> levels'[q[k]] == d + 1
    {
      if k >= |rest| {
        assert q[k] == added[k - |rest|];
      } else {
        assert q[k] == queue[k + 1];
      }
    }
    forall i, j | 0 <= i < j < |q|
      ensures levels'[q[i]] <= levels'[q[j]] <= levels'[q[i]] + 1
    {
      if j < |rest| {
        assert 0 < i + 1 < j + 1 < |queue|;
      } else if i < |rest| {
        assert 0 < i + 1 < |queue|;
      }
    }
  }

  /** Moving the head of a duplicate-free queue to the dequeued ids and
      appending ids that had no level keeps every id enqueued at most once. */
  lemma ExpandDistinct(done: seq<int>, queue: seq<int>, levels: map<int, int>, added: seq<int>)
    requires queue != []
    requires Distinct(done + queue)
    requires forall x :: x in done || x in queue ==> x in levels
    requires Distinct(added)
    requires forall x :: x in added ==> x !in levels
    ensures Distinct(done + [queue[0]] + (queue[1..] + added))
  {
    assert done + [queue[0]] + queue[1..] == done + queue;
    DistinctAppend(done + queue, added);
    assert done + [queue[0]] + (queue[1..] + added) == (done + queue) + added;
  }

  /** After expanding current, every dequeued id below level n, current
      included, still has all its follows levelled. */
  lemma ExpandKeepsExpanded(g: Lookup, n: int, done: seq<int>, current: int, levels: map<int, int>, levels': map<int, int>)
    requires forall u :: u in done ==> u in levels
    requires forall u :: u in done && u in levels && levels[u] < n ==> Expanded(g, levels, u)
    requires Expanded(g, levels', current)
    requires forall v :: v in levels ==> v in levels' && levels'[v] == levels[v]
    ensures forall u :: u in done + [current] && u in levels' && levels'[u] < n ==> Expanded(g, levels', u)
  {
    forall u | u in done + [current] && u in levels' && levels'[u] < n
      ensures Expanded(g, levels', u)
    {
      if u != current {
        assert Expanded(g, levels, u);
      }
    }
  }

  /** Dequeuing an id below level n that has a user entry and levelling its
      unvisited follows with the next level keeps the invariant. */
  lemma BfsExpand(g: Lookup, s: int, n: int, done: seq<int>, queue: seq<int>, levels: map<int, int>, levels': map<int, int>)
    requires BfsInvariant(g, s, n, done, queue, levels)
    requires queue != []
    requires levels[queue[0]] < n && queue[0] in g
    requires forall v :: v in levels' <==> v in levels || v in NewIds(g[queue[0]].follows, levels.Keys)
    requires forall v :: v in levels ==> levels'[v] == levels[v]
    requires forall v :: v in NewIds(g[queue[0]].follows, levels.Keys) ==> levels'[v] == levels[queue[0]] + 1
    ensures BfsInvariant(g, s, n, done + [queue[0]], queue[1..] + NewIds(g[queue[0]].follows, levels.Keys), levels')
  {
    var current, rest := queue[0], queue[1..];
    var d := levels[current];
    var added := NewIds(g[current].follows, levels.Keys);
    assert queue == [current] + rest;
    assert LevelsExact(g, s, levels') by {
      // everything levelled below d is already done, so everything within d hops has a level
      assert forall u :: u in levels && levels[u] < d ==> u in done by {
        assert forall k :: 0 <= k < |queue| ==> levels[queue[k]] >= d;
      }
      Coverage(g, s, levels, done, n, d);
      DiscoverAll(g, s, levels, current, d, added, levels');
    }
    ExpandDistinct(done, queue, levels, added);
    QueueOrderAfterExpand(levels, levels', queue, added);
    ExpandKeepsExpanded(g, n, done, current, levels, levels');
  }

  /** When the queue is empty the levelled ids are exactly those within
      max(n, 0) hops, each with its shortest hop count. */
  lemma BfsFinish(g: Lookup, s: int, n: int, done: seq<int>, levels: map<int, int>)
    requires BfsInvariant(g, s, n, done, [], levels)
    ensures forall v :: v in levels <==> WithinHops(g, s, v, Depth(n))
    ensures forall v :: v in levels ==> IsDistance(g, s, v, levels[v]) && levels[v] <= Depth(n)
  {
    Coverage(g, s, levels, done, n, Depth(n));
    forall v | v in levels
      ensures WithinHops(g, s, v, Depth(n))
      ensures IsDistance(g, s, v, levels[v])
    {
      LevelWithin(g, s, levels, v, Depth(n));
    }
  }

  /** Breadth-first search from findId: visited set, FIFO queue and level map;
      a dequeued id whose level has reached n, or that has no user entry, is
      not expanded. On return the levelled ids are exactly those within
      max(n, 0) hops, each with its shortest hop count. */
  method Bfs(g: Lookup, findId: int, n: int) returns (levels: map<int, int>)
    ensures forall v :: v in levels <==> WithinHops(g, findId, v, Depth(n))
    ensures forall v :: v in levels ==> IsDistance(g, findId, v, levels[v]) && levels[v] <= Depth(n)
  {
    var visited: set<int> := {findId};
    var queue: seq<int> := [findId];
    levels := map[findId := 0];
    ghost var done: seq<int> := [];
    BfsStart(g, findId, n);

    while queue != []
      invariant visited == levels.Keys
      invariant BfsInvariant(g, findId, n, done, queue, levels)
      decreases Ids(g, findId) - set x | x in done
    {
      ghost var queue0, levels0 := queue, levels;
      BfsDequeue(g, findId, n, done, queue, levels);
      var current := queue[0];
      queue := queue[1..];
      var currentLevel := levels[current];
      if currentLevel < n && current in g {
        visited, queue, levels := ExpandFollows(g[current].follows, currentLevel + 1, visited, queue, levels);
        BfsExpand(g, findId, n, done, queue0, levels0, levels);
      } else {
        BfsSkip(g, findId, n, done, queue0, levels);
      }
      ghost var doneBefore := set x | x in done;
      done := done + [current];
      assert (set x | x in done) == doneBefore + {current};
    }
    BfsFinish(g, findId, n, done, levels);
  }

  /** In the search's outcome every id levelled k + 1 is a follow of an id
      levelled k that has a user entry: an id without one is a dead end and is
      never anyone's parent. */
  lemma BfsParent(g: Lookup, s: int, n: int, levels: map<int, int>, v: int)
    requires forall w :: w in levels <==> WithinHops(g, s, w, Depth(n))
    requires forall w :: w in levels ==> IsDistance(g, s, w, levels[w]) && levels[w] <= Depth(n)
    requires v in levels && levels[v] > 0
    ensures exists u :: u in g && v in g[u].follows && u in levels && levels[u] == levels[v] - 1
  {
    assert IsDistance(g, s, v, levels[v]);
    ParentOnPreviousLevel(g, s, v, levels[v] - 1);
    var u :| u in g && v in g[u].follows && IsDistance(g, s, u, levels[v] - 1);
    assert WithinHops(g, s, u, Depth(n));
    DistanceUnique(g, s, u, levels[u], levels[v] - 1);
  }

  /** Concatenating two duplicate-free sequences with no id in common gives a
      duplicate-free sequence. */
  lemma DistinctAppend(s: seq<int>, t: seq<int>)
    requires Distinct(s) && Distinct(t)
    requires forall x :: x in t ==> x !in s
    ensures Distinct(s + t)
  {
    forall i, j | 0 <= i < j < |s + t|
      ensures (s + t)[i] != (s + t)[j]
    {
      if j < |s| {
        assert (s + t)[i] == s[i] && (s + t)[j] == s[j];
      } else if i >= |s| {
        assert (s + t)[i] == t[i - |s|] && (s + t)[j] == t[j - |s|];
      } else {
        assert (s + t)[i] == s[i] && (s + t)[j] == t[j - |s|];
        assert t[j - |s|] in t;
      }
    }
  }

  /** Collects, in unspecified map order, every id whose level is exactly n. */
  method CollectAtLevel(levels: map<int, int>, n: int) returns (result: seq<int>)
    ensures Distinct(result)
    ensures forall v :: v in result <==> v in levels && levels[v] == n
  {
    result := [];
    var keys := levels.Keys;
    while keys != {}
      invariant keys <= levels.Keys
      invariant Distinct(result)
      invariant forall v :: v in result <==> v in levels && levels[v] == n && v !in keys
      decreases keys
    {
      NonEmptyHasMember(keys);
      var k :| k in keys;
      if levels[k] == n {
        result := result + [k];
      }
      keys := keys - {k};
    }
  }

  /** A non-empty set has a member to pick. */
  lemma NonEmptyHasMember(keys: set<int>)
    requires keys != {}
    ensures exists k :: k in keys
  {
    if forall k :: k !in keys {
      assert false;
    }
  }

  /** The whole solver: the outcome is one inner list holding, in increasing
      order and each once, exactly the ids whose shortest hop count from findId
      is n; for n == 0 that is findId alone, for negative n nothing. */
  method SolveProblem(usersData: UsersData) returns (result: seq<seq<int>>)
    ensures |result| == 1
    ensures StrictlyAscending(result[0])
    ensures forall v :: v in result[0] <==> IsDistance(UserMap(usersData.users), usersData.findId, v, usersData.n)
    ensures usersData.n == 0 ==> result == [[usersData.findId]]
    ensures usersData.n < 0 ==> result == [[]]
  {
    var users := usersData.users;
    var findId := usersData.findId;
    var n := usersData.n;

    var userMap := BuildUserMap(users);
    var levels := Bfs(userMap, findId, n);
    var collected := CollectAtLevel(levels, n);

    var sorted := new int[|collected|];
    forall i | 0 <= i < |collected| {
      sorted[i] := collected[i];
    }
    assert sorted[..] == collected;
    SortAscending(sorted);
    DistinctPermutation(collected, sorted[..]);
    var inner := sorted[..];

    forall v
      ensures v in inner <==> IsDistance(userMap, findId, v, n)
    {
      assert v in inner <==> v in multiset(inner);
      assert v in collected <==> v in multiset(collected);
      if IsDistance(userMap, findId, v, n) {
        assert v in levels;
        DistanceUnique(userMap, findId, v, levels[v], n);
      }
    }
    assert inner == [] || inner[0] in inner;
    if n == 0 {
      StartWithin(userMap, findId);
      forall v
        ensures v in inner <==> v in [findId]
      {
        if IsDistance(userMap, findId, v, 0) {
          WithinHopsInIds(userMap, findId, v, 0);
        }
      }
      StrictlyAscendingUnique(inner, [findId]);
    }
    result := [inner];
  }
}
