/**
  The job-comment table and its ancestor query, `CRUDJobComment.get_parents`.

  The table is a map from internal id (the primary key) to row. The query is a
  recursive common table expression with UNION: its seed is the row with the
  given id, provided that row is not soft-deleted, and its recursive step adds
  every row whose id is the `parent_id` of a row already produced. Its result
  is modelled as the set of ids of the rows it returns; since the id is the
  primary key, two returned rows are equal exactly when their ids are.
*/
module CommentTable {
  import opened Wrappers

  /** The public identifier of a comment, never to be confused with its internal id. */
  type Uid = nat

  /** One row of the comment table; its internal id is the key it is stored under. */
  datatype Row = Row(
    uid: Uid,
    text: string,
    parentId: Option<int>,
    firstParentUid: Option<Uid>,
    authorId: int,
    jobId: int,
    isDeleted: bool)

  type Table = map<int, Row>

  /** The uid column is unique. */
  ghost predicate UniqueUids(rows: Table) {
    forall a, b :: a in rows && b in rows && rows[a].uid == rows[b].uid ==> a == b
  }

  /**
    Point lookup by public identifier, skipping soft-deleted rows
    (`crud_comments.get_by_uid`).
  */
  function FindByUid(rows: Table, uid: Uid): (r: Option<int>)
    requires UniqueUids(rows)
    ensures r.Some? ==> r.value in rows && rows[r.value].uid == uid && !rows[r.value].isDeleted
    ensures r.None? ==> forall k :: k in rows && rows[k].uid == uid ==> rows[k].isDeleted
  {
    if exists k :: k in rows && rows[k].uid == uid && !rows[k].isDeleted then
      var k :| k in rows && rows[k].uid == uid && !rows[k].isDeleted;
      Some(k)
    else
      None
  }

  /**
    The row the recursive step joins to row `x`: the row whose id equals
    `x.parent_id`, when there is one. Its deletion flag is not looked at.
  */
  function JoinParent(rows: Table, x: int): Option<int> {
    if x in rows && rows[x].parentId.Some? && rows[x].parentId.value in rows
    then rows[x].parentId
    else None
  }

  /** One evaluation of the recursive member: the rows joined to the rows of `frontier`. */
  function Step(rows: Table, frontier: set<int>): (r: set<int>)
    ensures r <= rows.Keys
    ensures forall x :: x in frontier && JoinParent(rows, x).Some? ==> JoinParent(rows, x).value in r
    ensures forall p :: p in r ==> exists x :: x in frontier && JoinParent(rows, x) == Some(p)
  {
    set x | x in frontier && JoinParent(rows, x).Some? :: JoinParent(rows, x).value
  }

  /** Every row of `r` has the row it joins to in `r` too. */
  ghost predicate ParentClosed(rows: Table, r: set<int>) {
    forall x :: x in r && JoinParent(rows, x).Some? ==> JoinParent(rows, x).value in r
  }

  /**
    The iteration of a recursive query with UNION: `visited` is everything
    produced so far and `frontier` the rows produced by the last round. A round
    keeps only rows not produced before, and evaluation stops at the first round
    that produces nothing new, so it terminates even when the parent links form
    a cycle.
  */
  function Closure(rows: Table, visited: set<int>, frontier: set<int>): (r: set<int>)
    requires visited <= rows.Keys && frontier <= visited
    requires forall x :: x in visited - frontier && JoinParent(rows, x).Some? ==> JoinParent(rows, x).value in visited
    ensures visited <= r <= rows.Keys
    ensures ParentClosed(rows, r)
    decreases |rows.Keys - visited|
  {
    var next := Step(rows, frontier) - visited;
    if next == {} then
      NothingNewIsClosed(rows, visited, frontier);
      visited
    else
      FewerUnvisited(rows.Keys, visited, next);
      Closure(rows, visited + next, next)
  }

  /** `CRUDJobComment.get_parents`; `None` stands for a NULL id, which matches no row. */
  function GetParents(rows: Table, id: Option<int>): (r: set<int>)
    ensures r <= rows.Keys && |r| <= |rows|
    ensures id.Some? && id.value in rows && !rows[id.value].isDeleted ==> id.value in r
    ensures id.None? || id.value !in rows || rows[id.value].isDeleted ==> r == {}
    ensures ParentClosed(rows, r)
  {
    if id.Some? && id.value in rows && !rows[id.value].isDeleted then
      var r := Closure(rows, {id.value}, {id.value});
      SubsetCard(r, rows.Keys);
      r
    else
      {}
  }

  lemma SubsetCard(a: set<int>, b: set<int>)
    requires a <= b
    ensures |a| <= |b|
  {
    assert b == a + (b - a);
    assert a * (b - a) == {};
  }

  /** When a round produces nothing new, what was produced is closed under parent links. */
  lemma NothingNewIsClosed(rows: Table, visited: set<int>, frontier: set<int>)
    requires frontier <= visited
    requires forall x :: x in visited - frontier && JoinParent(rows, x).Some? ==> JoinParent(rows, x).value in visited
    requires Step(rows, frontier) - visited == {}
    ensures ParentClosed(rows, visited)
  {
    forall x | x in visited && JoinParent(rows, x).Some?
      ensures JoinParent(rows, x).value in visited
    {
      if x in frontier {
        var p := JoinParent(rows, x).value;
        assert p in Step(rows, frontier) && p !in Step(rows, frontier) - visited;
      }
    }
  }

  /** Adding a non-empty set of fresh rows to `visited` leaves fewer rows unvisited. */
  lemma FewerUnvisited(keys: set<int>, visited: set<int>, next: set<int>)
    requires next <= keys && next * visited == {} && next != {}
    ensures |keys - (visited + next)| < |keys - visited|
  {
    assert keys - visited == (keys - (visited + next)) + next;
    assert (keys - (visited + next)) * next == {};
  }

  /** The row reached from `id` by joining to the parent exactly `n` times. */
  ghost function Up(rows: Table, id: int, n: nat): (r: Option<int>)
    ensures r.Some? ==> r.value in rows
    decreases n
  {
    if id !in rows then None
    else if n == 0 then Some(id)
    else match JoinParent(rows, id)
      case None => None
      case Some(p) => Up(rows, p, n - 1)
  }

  ghost predicate Reachable(rows: Table, s: int, x: int) {
    exists n: nat :: Up(rows, s, n) == Some(x)
  }

  /** Reference definition of the ancestor set: every row reachable from `s` by parent links. */
  ghost function Ancestors(rows: Table, s: int): set<int> {
    set x | x in rows && Reachable(rows, s, x)
  }

  lemma {:induction false} UpStep(rows: Table, s: int, n: nat, x: int)
    requires Up(rows, s, n) == Some(x) && JoinParent(rows, x).Some?
    ensures Up(rows, s, n + 1) == JoinParent(rows, x)
    decreases n
  {
    if n > 0 {
      UpStep(rows, JoinParent(rows, s).value, n - 1, x);
    }
  }

  lemma {:induction false} UpStaysNone(rows: Table, s: int, n: nat, m: nat)
    requires Up(rows, s, n).None? && n <= m
    ensures Up(rows, s, m).None?
    decreases n
  {
    if s in rows && n > 0 && JoinParent(rows, s).Some? {
      UpStaysNone(rows, JoinParent(rows, s).value, n - 1, m - 1);
    }
  }

  /** Soundness of the iteration: it never produces a row unreachable from `s`. */
  lemma {:induction false} ClosureReachable(rows: Table, s: int, visited: set<int>, frontier: set<int>)
    requires visited <= rows.Keys && frontier <= visited
    requires forall x :: x in visited - frontier && JoinParent(rows, x).Some? ==> JoinParent(rows, x).value in visited
    requires forall x :: x in visited ==> Reachable(rows, s, x)
    ensures forall x :: x in Closure(rows, visited, frontier) ==> Reachable(rows, s, x)
    decreases |rows.Keys - visited|
  {
    var next := Step(rows, frontier) - visited;
    if next != {} {
      forall p | p in next
        ensures Reachable(rows, s, p)
      {
        var x :| x in frontier && JoinParent(rows, x) == Some(p);
        var n: nat :| Up(rows, s, n) == Some(x);
        UpStep(rows, s, n, x);
      }
      FewerUnvisited(rows.Keys, visited, next);
      ClosureReachable(rows, s, visited + next, next);
    }
  }

  /** A set that holds `s` and is closed under parent links holds every ancestor of `s`. */
  lemma {:induction false} ClosedHoldsUp(rows: Table, r: set<int>, s: int, n: nat)
    requires s in r && ParentClosed(rows, r)
    ensures Up(rows, s, n).Some? ==> Up(rows, s, n).value in r
    decreases n
  {
    if s in rows && n > 0 && JoinParent(rows, s).Some? {
      ClosedHoldsUp(rows, r, JoinParent(rows, s).value, n - 1);
    }
  }

  /**
    For a live start row the query returns exactly its ancestors, itself
    included, deleted or not: complete (closed under parent links) and minimal
    (nothing unreachable).
  */
  lemma GetParentsExact(rows: Table, s: int)
    requires s in rows && !rows[s].isDeleted
    ensures GetParents(rows, Some(s)) == Ancestors(rows, s)
  {
    var r := GetParents(rows, Some(s));
    assert Up(rows, s, 0) == Some(s);
    ClosureReachable(rows, s, {s}, {s});
    forall x | x in Ancestors(rows, s)
      ensures x in r
    {
      var n: nat :| Up(rows, s, n) == Some(x);
      ClosedHoldsUp(rows, r, s, n);
    }
  }

  /** The first `n` ancestors of `s`: the rows `Up(rows, s, i)` for `i < n`. */
  ghost function FirstLevels(rows: Table, s: int, n: nat): set<int>
    decreases n
  {
    if n == 0 then {}
    else FirstLevels(rows, s, n - 1) + (if Up(rows, s, n - 1).Some? then {Up(rows, s, n - 1).value} else {})
  }

  /** Every one of the first `n` ancestors is among the first `n` levels. */
  lemma {:induction false} FirstLevelsHas(rows: Table, s: int, n: nat, i: nat)
    requires i < n && Up(rows, s, i).Some?
    ensures Up(rows, s, i).value in FirstLevels(rows, s, n)
    decreases n
  {
    if i < n - 1 {
      FirstLevelsHas(rows, s, n - 1, i);
    }
  }

  /** Every row among the first `n` levels is the `i`-th ancestor for some `i < n`. */
  lemma {:induction false} FirstLevelsOnly(rows: Table, s: int, n: nat, x: int) returns (i: nat)
    requires x in FirstLevels(rows, s, n)
    ensures i < n && Up(rows, s, i) == Some(x)
    decreases n
  {
    if x in FirstLevels(rows, s, n - 1) {
      i := FirstLevelsOnly(rows, s, n - 1, x);
    } else {
      i := n - 1;
    }
  }

  lemma {:induction false} FirstLevelsMembers(rows: Table, s: int, n: nat, x: int)
    ensures x in FirstLevels(rows, s, n) <==> exists i :: 0 <= i < n && Up(rows, s, i) == Some(x)
  {
    if x in FirstLevels(rows, s, n) {
      var i := FirstLevelsOnly(rows, s, n, x);
      assert 0 <= i < n && Up(rows, s, i) == Some(x);
    }
    if exists i :: 0 <= i < n && Up(rows, s, i) == Some(x) {
      var i :| 0 <= i < n && Up(rows, s, i) == Some(x);
      FirstLevelsHas(rows, s, n, i);
    }
  }

  lemma {:induction false} FirstLevelsCard(rows: Table, s: int, n: nat)
    requires forall i :: 0 <= i < n ==> Up(rows, s, i).Some?
    requires forall i, j :: 0 <= i < j < n ==> Up(rows, s, i) != Up(rows, s, j)
    ensures |FirstLevels(rows, s, n)| == n
    decreases n
  {
    if n > 0 {
      FirstLevelsCard(rows, s, n - 1);
      var x := Up(rows, s, n - 1).value;
      FirstLevelsMembers(rows, s, n - 1, x);
    }
  }

  /**
    On an acyclic chain the query counts every level: a live start row with
    exactly `k` distinct ancestors above it yields `k + 1` rows.
  */
  lemma AcyclicChainCount(rows: Table, s: int, k: nat)
    requires s in rows && !rows[s].isDeleted
    requires forall i :: 0 <= i <= k ==> Up(rows, s, i).Some?
    requires forall i, j :: 0 <= i < j <= k ==> Up(rows, s, i) != Up(rows, s, j)
    requires Up(rows, s, k + 1).None?
    ensures |GetParents(rows, Some(s))| == k + 1
  {
    GetParentsExact(rows, s);
    forall x | x in Ancestors(rows, s)
      ensures x in FirstLevels(rows, s, k + 1)
    {
      FirstLevelsMembers(rows, s, k + 1, x);
      var n: nat :| Up(rows, s, n) == Some(x);
      if n > k {
        UpStaysNone(rows, s, k + 1, n);
      }
      assert 0 <= n < k + 1 && Up(rows, s, n) == Some(x);
      assert exists i :: 0 <= i < k + 1 && Up(rows, s, i) == Some(x);
    }
    forall x | x in FirstLevels(rows, s, k + 1)
      ensures x in Ancestors(rows, s)
    {
      FirstLevelsMembers(rows, s, k + 1, x);
      var i :| 0 <= i < k + 1 && Up(rows, s, i) == Some(x);
      assert Reachable(rows, s, x);
    }
    assert Ancestors(rows, s) == FirstLevels(rows, s, k + 1);
    FirstLevelsCard(rows, s, k + 1);
  }

  /**
    `cs` is a thread of live comments nested one below the other: `cs[0]` is a
    top-level comment and each `cs[i]` replies to `cs[i - 1]`.
  */
  ghost predicate IsNestedThread(rows: Table, cs: seq<int>) {
    && (forall i :: 0 <= i < |cs| ==> cs[i] in rows && !rows[cs[i]].isDeleted)
    && (forall i, j :: 0 <= i < j < |cs| ==> cs[i] != cs[j])
    && (|cs| > 0 ==> rows[cs[0]].parentId.None?)
    && (forall i :: 0 < i < |cs| ==> rows[cs[i]].parentId == Some(cs[i - 1]))
  }

  lemma {:induction false} ThreadUp(rows: Table, cs: seq<int>, j: nat, t: nat)
    requires IsNestedThread(rows, cs) && j < |cs|
    ensures Up(rows, cs[j], t) == if t <= j then Some(cs[j - t]) else None
    decreases t
  {
    if t > 0 && j > 0 {
      ThreadUp(rows, cs, j - 1, t - 1);
    }
  }

  /** The ancestor query from the `j`-th comment of a thread returns `j + 1` rows. */
  lemma ThreadParents(rows: Table, cs: seq<int>, j: nat)
    requires IsNestedThread(rows, cs) && j < |cs|
    ensures |GetParents(rows, Some(cs[j]))| == j + 1
  {
    forall i | 0 <= i <= j + 1
      ensures Up(rows, cs[j], i) == if i <= j then Some(cs[j - i]) else None
    {
      ThreadUp(rows, cs, j, i);
    }
    AcyclicChainCount(rows, cs[j], j);
  }

  /**
    Only the start row is filtered on `is_deleted`: above a live row, a
    soft-deleted ancestor is still returned, while starting from it returns nothing.
  */
  lemma DeletedAncestorReturned()
    ensures var rows := map[
      1 := Row(10, "root", None, None, 7, 3, true),
      2 := Row(20, "reply", Some(1), None, 7, 3, false)];
      GetParents(rows, Some(2)) == {1, 2} && GetParents(rows, Some(1)) == {}
  {
  }

  /** Parent links that form a cycle still give a finite answer: the whole cycle. */
  lemma CycleReturnsWholeCycle()
    ensures var rows := map[
      1 := Row(10, "a", Some(2), None, 7, 3, false),
      2 := Row(20, "b", Some(1), None, 7, 3, false)];
      GetParents(rows, Some(1)) == {1, 2}
  {
  }
}
