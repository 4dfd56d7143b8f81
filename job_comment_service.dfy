/**
  Creation of job comments with a nesting-depth limit (`JobCommentService`).

  A request may name the comment it replies to by public uid. The parent is
  resolved to its internal id, its nesting depth is measured with the ancestor
  query, and the request is refused when that depth has reached the configured
  maximum. Refused requests leave the table as it was.
*/
module JobCommentService {
  import opened Wrappers
  import opened CommentTable

  /**
    The fields of a create request that were set (`model_dump(exclude_unset=True)`).
    A key that is absent and a key set to null are both `None`: the service only
    tests them for truth. `parentId` is the key the service writes in place of
    `parentUid`.
  */
  datatype CommentData = CommentData(
    text: string,
    parentUid: Option<Uid>,
    parentId: Option<int>,
    firstParentUid: Option<Uid>)

  /** What a create request ends in: 201 with the new row's id, 404, or 400. */
  datatype Outcome =
    | Created(id: int)
    | NotFound(uid: Option<Uid>)   // "Comment {uid} not found"
    | TooDeep(maxDepth: nat)       // "Total number of nested comments mustn't exceed {maxDepth}"

  function StatusCode(outcome: Outcome): int {
    match outcome
    case Created(_) => 201
    case NotFound(_) => 404
    case TooDeep(_) => 400
  }

  datatype Response = Response(outcome: Outcome, table: Table)

  /**
    The row `crud_comments.create` stores for
    `JobCommentCreateDB(**data, author_id=..., job_id=...)`: the request's
    fields, the author and the job, a fresh uid, not deleted.
  */
  function NewRow(data: CommentData, authorId: int, jobId: int, uid: Uid): Row {
    Row(uid, data.text, data.parentId, data.firstParentUid, authorId, jobId, false)
  }

  /**
    `get_comment_nesting_depth`: the size of the ancestor query started at the
    comment's parent, plus one.
  */
  function NestingDepth(rows: Table, comment: Row): (d: int)
    ensures 1 <= d <= |rows| + 1
    ensures comment.parentId.None? ==> d == 1
    ensures comment.parentId.Some? && comment.parentId.value in rows && !rows[comment.parentId.value].isDeleted ==> d >= 2
  {
    |GetParents(rows, comment.parentId)| + 1
  }

  /**
    `_create_comment` on a table `rows`, with `newId` and `newUid` the id and
    uid the insert would hand out. `uidNoneFound` is what `get_by_uid(uid=None)`
    answers, which this model does not determine; it is consulted only when
    `firstParentUid` is set and `parentUid` is not.
  */
  function Create(rows: Table, maxDepth: nat, data: CommentData, authorId: int, jobId: int,
                  newId: int, newUid: Uid, uidNoneFound: bool): (r: Response)
    requires UniqueUids(rows)
    // a refused request writes nothing
    ensures !r.outcome.Created? ==> r.table == rows
    // an unknown (or soft-deleted) parent is a 404 naming its uid
    ensures data.parentUid.Some? && FindByUid(rows, data.parentUid.value).None? ==>
              r.outcome == NotFound(data.parentUid)
    // the depth limit applies exactly to replies whose parent is already at the limit
    ensures r.outcome.TooDeep? <==>
              && data.parentUid.Some?
              && FindByUid(rows, data.parentUid.value).Some?
              && NestingDepth(rows, rows[FindByUid(rows, data.parentUid.value).value]) >= maxDepth
    ensures r.outcome.TooDeep? ==> r.outcome.maxDepth == maxDepth
    // success inserts one row and touches no other
    ensures r.outcome.Created? ==>
              && r.outcome.id == newId
              && r.table.Keys == rows.Keys + {newId}
              && (forall k :: k in rows && k != newId ==> r.table[k] == rows[k])
              && r.table[newId].uid == newUid && !r.table[newId].isDeleted
              && r.table[newId].text == data.text
              && r.table[newId].firstParentUid == data.firstParentUid
              && r.table[newId].authorId == authorId && r.table[newId].jobId == jobId
              && (data.parentUid.None? ==> r.table[newId].parentId == data.parentId)
    // with a fresh id and uid, the insert adds exactly one row and keeps uids unique
    ensures r.outcome.Created? && newId !in rows && (forall k :: k in rows ==> rows[k].uid != newUid) ==>
              UniqueUids(r.table) && |r.table| == |rows| + 1
    // a stored reply points at the internal id of the comment its uid names
    ensures r.outcome.Created? && data.parentUid.Some? ==>
              && r.table[newId].parentId.Some?
              && r.table[newId].parentId.value in rows
              && rows[r.table[newId].parentId.value].uid == data.parentUid.value
  {
    var parentUid := data.parentUid;
    var found := if parentUid.Some? then FindByUid(rows, parentUid.value) else None;
    if parentUid.Some? && found.None? then
      Response(NotFound(parentUid), rows)
    else if parentUid.Some? && NestingDepth(rows, rows[found.value]) >= maxDepth then
      Response(TooDeep(maxDepth), rows)
    else
      var written := if parentUid.Some? then data.(parentId := found, parentUid := None) else data;
      var recheck := if parentUid.Some? then FindByUid(rows, parentUid.value).Some? else uidNoneFound;
      if written.firstParentUid.Some? && !recheck then
        Response(NotFound(parentUid), rows)
      else
        Response(Created(newId), rows[newId := NewRow(written, authorId, jobId, newUid)])
  }

  /** Without a parent and without a first parent nothing is checked: the comment is stored. */
  lemma TopLevelAlwaysStored(rows: Table, maxDepth: nat, data: CommentData, authorId: int, jobId: int,
                             newId: int, newUid: Uid, uidNoneFound: bool)
    requires UniqueUids(rows)
    requires data.parentUid.None? && data.firstParentUid.None?
    ensures Create(rows, maxDepth, data, authorId, jobId, newId, newUid, uidNoneFound)
              == Response(Created(newId), rows[newId := NewRow(data, authorId, jobId, newUid)])
  {
  }

  /**
    The first-parent check looks `parentUid` up again, not `firstParentUid`:
    once the parent resolves and is under the limit, any first-parent uid is
    accepted, even one no comment has.
  */
  lemma FirstParentNotLookedUp(rows: Table, maxDepth: nat, data: CommentData, authorId: int, jobId: int,
                               newId: int, newUid: Uid, uidNoneFound: bool, p: int)
    requires UniqueUids(rows)
    requires data.parentUid.Some? && FindByUid(rows, data.parentUid.value) == Some(p)
    requires NestingDepth(rows, rows[p]) < maxDepth
    ensures forall firstParent: Option<Uid> ::
              Create(rows, maxDepth, data.(firstParentUid := firstParent), authorId, jobId, newId, newUid, uidNoneFound).outcome
                == Created(newId)
  {
  }

  /**
    With a first parent but no parent, the check asks `get_by_uid` for a null
    uid; the outcome is then whatever that lookup answers, and a miss is a 404
    naming no uid.
  */
  lemma FirstParentWithoutParent(rows: Table, maxDepth: nat, data: CommentData, authorId: int, jobId: int,
                                 newId: int, newUid: Uid, uidNoneFound: bool)
    requires UniqueUids(rows)
    requires data.parentUid.None? && data.firstParentUid.Some?
    ensures Create(rows, maxDepth, data, authorId, jobId, newId, newUid, uidNoneFound).outcome
              == if uidNoneFound then Created(newId) else NotFound(None)
  {
  }

  /** The `j`-th comment of a thread (counting from 0 at the top-level one) has depth `j + 1`. */
  lemma ThreadDepth(rows: Table, thread: seq<int>, j: nat)
    requires IsNestedThread(rows, thread) && j < |thread|
    ensures NestingDepth(rows, rows[thread[j]]) == j + 1
  {
    if j > 0 {
      ThreadParents(rows, thread, j - 1);
    }
  }

  /**
    One round of the nested-creation scenario: replying to the last comment of
    a thread of length `n >= 1` is refused with 400 exactly when `n` has
    reached the maximum, and otherwise extends the thread; a top-level
    comment always starts one.
  */
  lemma ThreadCreateStep(rows: Table, maxDepth: nat, thread: seq<int>, data: CommentData,
                         authorId: int, jobId: int, newId: int, newUid: Uid)
    requires UniqueUids(rows) && IsNestedThread(rows, thread)
    requires newId !in rows && forall k :: k in rows ==> rows[k].uid != newUid
    requires data.parentId.None? && data.firstParentUid.None?
    requires data.parentUid == if |thread| == 0 then None else Some(rows[thread[|thread| - 1]].uid)
    ensures var r := Create(rows, maxDepth, data, authorId, jobId, newId, newUid, false);
            if 1 <= |thread| && maxDepth <= |thread| then
              r.outcome == TooDeep(maxDepth)
            else
              r.outcome == Created(newId) && UniqueUids(r.table) && IsNestedThread(r.table, thread + [newId])
  {
    var r := Create(rows, maxDepth, data, authorId, jobId, newId, newUid, false);
    if |thread| > 0 {
      var last := thread[|thread| - 1];
      var found := FindByUid(rows, rows[last].uid);
      assert found == Some(last);
      ThreadDepth(rows, thread, |thread| - 1);
    }
    if r.outcome.Created? {
      var t := thread + [newId];
      forall i | 0 < i < |t|
        ensures r.table[t[i]].parentId == Some(t[i - 1])
      {
        if i < |thread| {
          assert r.table[t[i]] == rows[thread[i]];
        }
      }
    }
  }

  /**
    `rows` is `base` with the rows of `thread` added: every row of `base` is
    kept as it was, and the only new keys are the thread's, none of them in `base`.
  */
  ghost predicate ExtendsWith(base: Table, rows: Table, thread: seq<int>) {
    && (forall j :: 0 <= j < |thread| ==> thread[j] !in base)
    && (forall k :: k in base ==> k in rows && rows[k] == base[k])
    && rows.Keys == base.Keys + (set x | x in thread)
  }

  lemma ExtendsStep(base: Table, rows: Table, rows': Table, thread: seq<int>, id: int)
    requires ExtendsWith(base, rows, thread)
    requires id !in rows && id in rows' && rows' == rows[id := rows'[id]]
    ensures ExtendsWith(base, rows', thread + [id])
  {
    assert (set x | x in thread + [id]) == (set x | x in thread) + {id};
  }

  /** The comment table with an id counter and a uid generator, and the creation service over it. */
  class Store {
    var rows: Table
    var nextId: int
    var nextUid: Uid
    const maxDepth: nat

    /** Uids are unique and both counters are beyond every stored row. */
    ghost predicate Valid()
      reads this
    {
      && UniqueUids(rows)
      && (forall k :: k in rows ==> k < nextId && rows[k].uid < nextUid)
    }

    constructor (maxDepth: nat)
      ensures Valid() && rows == map[] && this.maxDepth == maxDepth
    {
      rows := map[];
      nextId := 1;
      nextUid := 0;
      this.maxDepth := maxDepth;
    }

    /** `crud_comments.create`: stores `data` under a fresh id with a fresh uid. */
    method Insert(data: CommentData, authorId: int, jobId: int) returns (id: int)
      requires Valid()
      modifies this
      ensures Valid()
      ensures id == old(nextId) && id !in old(rows)
      ensures rows == old(rows)[id := NewRow(data, authorId, jobId, old(nextUid))]
      ensures nextId == old(nextId) + 1 && nextUid == old(nextUid) + 1
    {
      id := nextId;
      rows := rows[id := NewRow(data, authorId, jobId, nextUid)];
      nextId := nextId + 1;
      nextUid := nextUid + 1;
    }

    /** `JobCommentService._create_comment`. */
    method CreateComment(request: CommentData, authorId: int, jobId: int, uidNoneFound: bool)
      returns (outcome: Outcome)
      requires Valid()
      modifies this
      ensures Valid()
      ensures Response(outcome, rows)
                == Create(old(rows), maxDepth, request, authorId, jobId, old(nextId), old(nextUid), uidNoneFound)
      ensures outcome.Created? ==> nextId == old(nextId) + 1 && nextUid == old(nextUid) + 1
      ensures !outcome.Created? ==> nextId == old(nextId) && nextUid == old(nextUid)
    {
      var data := request;
      var parentUid := data.parentUid;
      if parentUid.Some? {
        var found := FindByUid(rows, parentUid.value);
        if found.Some? {
          data := data.(parentId := found);
          data := data.(parentUid := None);
          var depth := NestingDepth(rows, rows[found.value]);
          if depth >= maxDepth {
            return TooDeep(maxDepth);
          }
        } else {
          return NotFound(parentUid);
        }
      }
      if data.firstParentUid.Some? {
        var again := if parentUid.Some? then FindByUid(rows, parentUid.value).Some? else uidNoneFound;
        if !again {
          return NotFound(parentUid);
        }
      }
      var id := Insert(data, authorId, jobId);
      outcome := Created(id);
    }

    /**
      One request of the nested-creation scenario: a reply to the last comment
      of `thread`, or a top-level comment when the thread is empty.
    */
    method ReplyToLast(text: string, parentUid: Option<Uid>, authorId: int, jobId: int, ghost thread: seq<int>)
      returns (outcome: Outcome)
      requires Valid() && IsNestedThread(rows, thread)
      requires parentUid == if |thread| == 0 then None else Some(rows[thread[|thread| - 1]].uid)
      modifies this
      ensures Valid()
      ensures if 1 <= |thread| && maxDepth <= |thread| then
                outcome == TooDeep(maxDepth) && rows == old(rows)
              else
                && outcome.Created? && outcome.id !in old(rows) && outcome.id in rows
                && rows == old(rows)[outcome.id := rows[outcome.id]]
                && IsNestedThread(rows, thread + [outcome.id])
    {
      var request := CommentData(text, parentUid, None, None);
      ThreadCreateStep(rows, maxDepth, thread, request, authorId, jobId, nextId, nextUid);
      outcome := CreateComment(request, authorId, jobId, false);
    }

    /**
      The nested-creation scenario: starting with no parent, create a comment
      and reply to the one just created, `maxDepth + 1` times. The first
      `maxDepth` requests are stored (201) and the last is refused (400).
    */
    method NestUntilRefused(text: string, authorId: int, jobId: int)
      returns (statuses: seq<int>, ghost thread: seq<int>)
      requires Valid() && maxDepth >= 1
      modifies this
      ensures Valid()
      ensures |statuses| == maxDepth + 1
      ensures forall i :: 0 <= i < maxDepth ==> statuses[i] == 201
      ensures statuses[maxDepth] == 400
      // the stored requests form one nested thread of new rows, with depths 1, 2, ..., maxDepth
      ensures IsNestedThread(rows, thread) && |thread| == maxDepth
      ensures forall j :: 0 <= j < |thread| ==> thread[j] !in old(rows)
      ensures forall j :: 0 <= j < maxDepth ==> NestingDepth(rows, rows[thread[j]]) == j + 1
      // earlier rows are kept as they were, and the refused request wrote nothing
      ensures forall k :: k in old(rows) ==> k in rows && rows[k] == old(rows)[k]
      ensures rows.Keys == old(rows).Keys + (set x | x in thread)
    {
      var parentUid: Option<Uid> := None;
      thread := [];
      statuses := [];
      var i := 0;
      while i < maxDepth + 1
        invariant Valid()
        invariant 0 <= i <= maxDepth + 1
        invariant |statuses| == i
        invariant forall j :: 0 <= j < i && j < maxDepth ==> statuses[j] == 201
        invariant i == maxDepth + 1 ==> statuses[maxDepth] == 400
        invariant |thread| == if i <= maxDepth then i else maxDepth
        invariant IsNestedThread(rows, thread)
        invariant parentUid == if |thread| == 0 then None else Some(rows[thread[|thread| - 1]].uid)
        invariant ExtendsWith(old(rows), rows, thread)
      {
        ghost var before := rows;
        var outcome := ReplyToLast(text, parentUid, authorId, jobId, thread);
        statuses := statuses + [StatusCode(outcome)];
        if outcome.Created? {
          ExtendsStep(old(rows), before, rows, thread, outcome.id);
          thread := thread + [outcome.id];
          parentUid := Some(rows[outcome.id].uid);
        }
        i := i + 1;
      }
      forall j | 0 <= j < maxDepth
        ensures NestingDepth(rows, rows[thread[j]]) == j + 1
      {
        ThreadDepth(rows, thread, j);
      }
    }
  }

  /**
    Deleted ancestors still count: below a soft-deleted top-level comment, a
    reply to a live reply has depth 3, although only one comment above it is
    live.
  */
  lemma DeletedAncestorCounted()
    ensures var rows := map[
      1 := Row(10, "root", None, None, 7, 3, true),
      2 := Row(20, "reply", Some(1), None, 7, 3, false),
      3 := Row(30, "reply to reply", Some(2), None, 7, 3, false)];
      NestingDepth(rows, rows[3]) == 3
  {
    var rows := map[
      1 := Row(10, "root", None, None, 7, 3, true),
      2 := Row(20, "reply", Some(1), None, 7, 3, false),
      3 := Row(30, "reply to reply", Some(2), None, 7, 3, false)];
    assert Up(rows, 2, 0) == Some(2);
    assert Up(rows, 2, 1) == Some(1);
    assert Up(rows, 2, 2) == None;
    AcyclicChainCount(rows, 2, 1);
  }

  /**
    Only the start row of the ancestor query is filtered on deletion, so a
    soft-deleted parent hides every comment above it. In the thread
    1 <- 2 (deleted) <- 3 <- 4, comment 3 has depth 1 and comment 4 depth 4;
    with a maximum of 2 a reply to comment 4 is refused, yet a reply to
    comment 3 is stored as a fourth level of the thread.
  */
  lemma DeletedParentResetsDepth()
    ensures var rows := map[
      1 := Row(10, "root", None, None, 7, 3, false),
      2 := Row(20, "reply", Some(1), None, 7, 3, true),
      3 := Row(30, "reply to reply", Some(2), None, 7, 3, false),
      4 := Row(40, "third level", Some(3), None, 7, 3, false)];
      && NestingDepth(rows, rows[3]) == 1
      && NestingDepth(rows, rows[4]) == 4
  {
    var rows := map[
      1 := Row(10, "root", None, None, 7, 3, false),
      2 := Row(20, "reply", Some(1), None, 7, 3, true),
      3 := Row(30, "reply to reply", Some(2), None, 7, 3, false),
      4 := Row(40, "third level", Some(3), None, 7, 3, false)];
    assert Up(rows, 3, 0) == Some(3);
    assert Up(rows, 3, 1) == Some(2);
    assert Up(rows, 3, 2) == Some(1);
    assert Up(rows, 3, 3) == None;
    AcyclicChainCount(rows, 3, 2);
  }

  /**
    The outcomes in that thread, with a maximum of 2: a reply to comment 4
    is refused, while a reply to comment 3, four levels down, is stored.
  */
  lemma DeletedParentOutcomes(data: CommentData, authorId: int, jobId: int, newId: int, newUid: Uid, uidNoneFound: bool)
    requires data.firstParentUid.None?
    ensures var rows := map[
      1 := Row(10, "root", None, None, 7, 3, false),
      2 := Row(20, "reply", Some(1), None, 7, 3, true),
      3 := Row(30, "reply to reply", Some(2), None, 7, 3, false),
      4 := Row(40, "third level", Some(3), None, 7, 3, false)];
      && UniqueUids(rows)
      && Create(rows, 2, data.(parentUid := Some(40)), authorId, jobId, newId, newUid, uidNoneFound).outcome == TooDeep(2)
      && Create(rows, 2, data.(parentUid := Some(30)), authorId, jobId, newId, newUid, uidNoneFound).outcome == Created(newId)
  {
    var rows := map[
      1 := Row(10, "root", None, None, 7, 3, false),
      2 := Row(20, "reply", Some(1), None, 7, 3, true),
      3 := Row(30, "reply to reply", Some(2), None, 7, 3, false),
      4 := Row(40, "third level", Some(3), None, 7, 3, false)];
    assert UniqueUids(rows);
    DeletedParentResetsDepth();
    assert FindByUid(rows, 40) == Some(4);
    assert FindByUid(rows, 30) == Some(3);
  }
}
