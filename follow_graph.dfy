/**
 The payload the solver receives and the directed "follows" graph it describes,
 together with the hop-count notions that the breadth-first search in
 WebhookService is proved against.
 */
module FollowGraph {

  /** A user: its id and the ids it follows (the targets of its out-edges). */
  datatype User = User(id: int, follows: seq<int>)

  /** The solver's input: the users, the start id and the target hop count. */
  datatype UsersData = UsersData(users: seq<User>, findId: int, n: int)

  /** The id -> user lookup the solver builds; an id without a key has no user entry. */
  type Lookup = map<int, User>

  /** The out-edges of u: the follows of its user entry, or none when u has no
      entry, which makes an id that is only ever followed a dead end. */
  function Follows(g: Lookup, u: int): seq<int>
  {
    if u in g then g[u].follows else []
  }

  /** The start together with every id some user follows: a finite set that
      holds every id reachable from s. */
  ghost function Ids(g: Lookup, s: int): set<int>
  {
    {s} + set u, v | u in g && v in g[u].follows :: v
  }

  /** p is a walk along follows edges: each id follows on from the one before it. */
  ghost predicate IsWalk(g: Lookup, p: seq<int>)
  {
    |p| >= 1 && forall i :: 0 <= i < |p| - 1 ==> p[i + 1] in Follows(g, p[i])
  }

  /** p is a walk from s to v; it takes |p| - 1 hops. */
  ghost predicate WalkFromTo(g: Lookup, p: seq<int>, s: int, v: int)
  {
    IsWalk(g, p) && p[0] == s && p[|p| - 1] == v
  }

  /** Some walk from s reaches v in at most k hops. */
  ghost predicate WithinHops(g: Lookup, s: int, v: int, k: int)
  {
    exists p :: WalkFromTo(g, p, s, v) && |p| <= k + 1
  }

  /** The shortest hop count from s to v is exactly k: some walk takes k hops
      and none takes fewer. */
  ghost predicate IsDistance(g: Lookup, s: int, v: int, k: int)
  {
    k >= 0 && WithinHops(g, s, v, k) && !WithinHops(g, s, v, k - 1)
  }

  /** The start is within 0 hops of itself: the walk that stays put. */
  lemma StartWithin(g: Lookup, s: int)
    ensures WithinHops(g, s, s, 0)
  {
    assert WalkFromTo(g, [s], s, s);
  }

  /** Following one edge out of an id within k hops lands within k + 1 hops. */
  lemma StepWithin(g: Lookup, s: int, k: int, u: int, v: int)
    requires WithinHops(g, s, u, k)
    requires v in Follows(g, u)
    ensures WithinHops(g, s, v, k + 1)
  {
    var p :| WalkFromTo(g, p, s, u) && |p| <= k + 1;
    var q := p + [v];
    forall i | 0 <= i < |q| - 1
      ensures q[i + 1] in Follows(g, q[i])
    {
      if i < |p| - 1 {
        assert q[i] == p[i] && q[i + 1] == p[i + 1];
      }
    }
    assert WalkFromTo(g, q, s, v);
  }

  /** Dropping the last hop of a walk: an id within k + 1 hops is within k hops
      already, or some id within k hops that has a user entry follows it. */
  lemma LastHop(g: Lookup, s: int, v: int, k: nat)
    requires WithinHops(g, s, v, k + 1)
    ensures WithinHops(g, s, v, k) || exists u :: u in g && v in g[u].follows && WithinHops(g, s, u, k)
  {
    var p :| WalkFromTo(g, p, s, v) && |p| <= k + 2;
    if |p| == k + 2 {
      var p' := p[..|p| - 1];
      var u := p[|p| - 2];
      assert WalkFromTo(g, p', s, u) by {
        forall i | 0 <= i < |p'| - 1
          ensures p'[i + 1] in Follows(g, p'[i])
        {
          assert p'[i] == p[i] && p'[i + 1] == p[i + 1];
        }
      }
      assert v in Follows(g, u);
      assert u in g && v in g[u].follows && WithinHops(g, s, u, k);
    }
  }

  /** The layers the search visits: the ids within k + 1 hops are those within
      k hops together with the follows of the ids within k hops. */
  lemma HopsRecurrence(g: Lookup, s: int, v: int, k: nat)
    ensures WithinHops(g, s, v, k + 1) <==>
      WithinHops(g, s, v, k) || exists u :: u in g && v in g[u].follows && WithinHops(g, s, u, k)
  {
    if WithinHops(g, s, v, k + 1) {
      LastHop(g, s, v, k);
    }
    if exists u :: u in g && v in g[u].follows && WithinHops(g, s, u, k) {
      var u :| u in g && v in g[u].follows && WithinHops(g, s, u, k);
      StepWithin(g, s, k, u, v);
    }
  }

  /** Only the start is within 0 hops, and every id within any number of hops
      is the start or followed by someone: the reachable ids are finite. */
  lemma WithinHopsInIds(g: Lookup, s: int, v: int, k: int)
    requires WithinHops(g, s, v, k)
    ensures v in Ids(g, s)
    ensures k <= 0 ==> v == s
  {
    var p :| WalkFromTo(g, p, s, v) && |p| <= k + 1;
    if |p| > 1 {
      var u := p[|p| - 2];
      assert v in Follows(g, u);
      assert u in g && v in g[u].follows;
    }
  }

  /** An id has one distance: a level first given to it cannot be bettered. */
  lemma DistanceUnique(g: Lookup, s: int, v: int, k1: int, k2: int)
    requires IsDistance(g, s, v, k1) && IsDistance(g, s, v, k2)
    ensures k1 == k2
  {
  }

  /** Every id at distance k + 1 is followed by some id at distance k that has a
      user entry: an id without one is a dead end and never anyone's parent. */
  lemma ParentOnPreviousLevel(g: Lookup, s: int, v: int, k: nat)
    requires IsDistance(g, s, v, k + 1)
    ensures exists u :: u in g && v in g[u].follows && IsDistance(g, s, u, k)
  {
    LastHop(g, s, v, k);
    var u :| u in g && v in g[u].follows && WithinHops(g, s, u, k);
    if WithinHops(g, s, u, k - 1) {
      StepWithin(g, s, k - 1, u, v);
      assert false;
    }
    assert IsDistance(g, s, u, k);
  }
}
