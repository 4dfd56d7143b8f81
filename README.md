# Threaded job comments with a nesting-depth limit

This project models the comment-threading core of a job-board backend.

Comments live in one table. Each row has an internal id (the primary key) and a public uid. It also has an optional `parent_id` self-link and a soft-delete flag.

- **The ancestor query** (`CRUDJobComment.get_parents`) is a recursive query with `UNION`. Its seed is the row with the given id, if that row is not soft-deleted. Its recursive step adds the row whose id is the `parent_id` of a row already produced.
- **Comment creation** (`JobCommentService._create_comment`) works in four steps:
  1. It resolves the optional parent uid.
  2. It measures the parent's nesting depth, which is the size of the ancestor query started at the parent's own parent, plus one.
  3. It refuses the request with 400 once that depth has reached `COMMENTS_NESTING_MAX_DEPTH`, and with 404 when the parent is unknown.
  4. Otherwise it rewrites `parent_uid` into `parent_id` and inserts the row with the author and the job.

Files:

- `wrappers.dfy`: the `Option` type.
- `comment_table.dfy` (module `CommentTable`):
  - the table is a `map<int, Row>` keyed by internal id;
  - the uid lookup;
  - the ancestor query, as the least fixpoint reached by round-by-round evaluation of the recursive query (`Closure`, `GetParents`);
  - a reference definition of the ancestors of a row (`Ancestors`, via `Up`, the n-th parent), and the theorem that the query computes exactly that set.
- `job_comment_service.dfy` (module `JobCommentService`):
  - the nesting depth;
  - the creation logic as a specification function `Create`;
  - the `Store` class, whose table and id and uid counters the method `CreateComment` updates in place;
  - `NestUntilRefused`, which runs the nested-creation scenario of the end-to-end test against the store.

The query result is modelled as the set of ids of the returned rows. The id is the primary key, so the rows `UNION` keeps apart are exactly the ids the set keeps apart, and `len(...)` of the result is the size of the set. The query is a function of the table, so it changes nothing.

`COMMENTS_NESTING_MAX_DEPTH` is not given a value. It is the `maxDepth` field of `Store` and a parameter of `Create`. The end-to-end scenario assumes it is at least 1, as the test does: the test's first, top-level request must succeed.

Two behaviours of the code are easy to misread; the model follows the code:

- One might expect soft-deleted ancestors to be left out of the ancestor query and the depth count. The code filters `is_deleted` on the seed row only (crud/comments.py:19), and the recursive step (crud/comments.py:23-27) does not filter. So a soft-deleted ancestor above a live start row is returned and counted. `DeletedAncestorReturned` and `DeletedAncestorCounted` show this on a concrete table. The other half of the same filter: when the start row itself is deleted the query returns nothing, so a comment whose parent is soft-deleted has depth 1 however deep it sits. A reply to it is then stored even where a reply to one of its own live replies is refused (`DeletedParentResetsDepth`, `DeletedParentOutcomes`).
- The first-parent check looks up `parent_uid` again, not `first_parent_uid` (services/job_comment.py:44-49). This is modelled as written; see `FirstParentNotLookedUp` and `FirstParentWithoutParent`.

## Model

| member | source | states |
|---|---|---|
| `CommentTable.FindByUid` | services/job_comment.py:23-25 | The uid lookup returns a live row with that uid when there is one, and nothing only when every row with that uid is soft-deleted. |
| `CommentTable.Step` | crud/comments.py:22-27 | One round of the recursive member yields exactly the existing rows whose id is the `parent_id` of a row from the previous round. |
| `CommentTable.Closure` | crud/comments.py:17-28 | The round-by-round evaluation with UNION terminates on any table, cyclic parent links included. Its result contains the seed, lies inside the table, and is closed under parent links. |
| `CommentTable.GetParents` | crud/comments.py:14-30 | The result is empty exactly when the id is null, names no row, or names a soft-deleted row. Otherwise it contains the start row. It is closed under parent links whatever their deletion flags, and has at most as many elements as the table has rows. |
| `CommentTable.ClosureReachable` | crud/comments.py:17-28 | Minimality: every row the query returns is reachable from the start row by following `parent_id` links. |
| `CommentTable.GetParentsExact` | crud/comments.py:17-28 | For a live start row the query returns exactly the reference set of its ancestors, itself included, whether or not they are deleted. |
| `CommentTable.AcyclicChainCount` | crud/comments.py:17-28 | On an acyclic chain where the live start row has exactly k distinct ancestors, the query returns k + 1 rows. |
| `CommentTable.ThreadParents` | crud/comments.py:17-28 | From the j-th comment of a thread of nested live replies, the query returns j + 1 rows. |
| `CommentTable.DeletedAncestorReturned` | crud/comments.py:17-27 | Above a live reply, a soft-deleted top-level comment is still returned. Starting from the deleted comment itself returns nothing. |
| `CommentTable.CycleReturnsWholeCycle` | crud/comments.py:22-28 | Two rows whose parent links point at each other give a finite result: both rows. |
| `JobCommentService.NestingDepth` | services/job_comment.py:59-66 | The depth is at least 1 and at most the table size plus 1. It is exactly 1 for a comment without `parent_id`, and at least 2 when the parent row is live. |
| `JobCommentService.Create` | services/job_comment.py:14-57 | An unknown or deleted parent uid gives 404 naming that uid. 400 happens exactly when the resolved parent's depth is at least the maximum. A refused request writes nothing. A success inserts one row under the new id and leaves every other row alone. The new row holds the request's fields, the author id, the job id and the new uid, and a reply's `parent_id` is the internal id of the comment its uid names. When the new id and uid are unused, a success grows the table by exactly one row and keeps uids unique. |
| `JobCommentService.TopLevelAlwaysStored` | services/job_comment.py:21-57 | Without `parent_uid` and `first_parent_uid` no check runs and the request is always inserted unchanged. |
| `JobCommentService.FirstParentNotLookedUp` | services/job_comment.py:44-49 | Once the parent resolves and is under the limit, the request is stored whatever `first_parent_uid` is, even a uid no comment has. |
| `JobCommentService.FirstParentWithoutParent` | services/job_comment.py:44-49 | With `first_parent_uid` but no `parent_uid`, the outcome is decided by the lookup of a null uid. A miss is 404 naming no uid. |
| `JobCommentService.ThreadDepth` | services/job_comment.py:59-66 | The j-th comment of a thread of nested live replies, counting the top-level one as 0, has nesting depth j + 1. |
| `JobCommentService.ThreadCreateStep` | services/job_comment.py:22-38 | Replying to the last comment of a thread of length n >= 1 gives 400 exactly when n has reached the maximum. Otherwise it is stored and extends the thread. A top-level comment is always stored and starts a thread. |
| `JobCommentService.Store.Insert` | services/job_comment.py:50-57 | The insert adds one row, with a fresh id and a fresh uid, built from the data, the author and the job. Uids stay unique. |
| `JobCommentService.Store.CreateComment` | services/job_comment.py:14-57 | The in-place creation (rewriting the request's `parent_uid` into `parent_id`, then inserting) returns the outcome and leaves the table that `Create` specifies. Uids stay unique. |
| `JobCommentService.Store.ReplyToLast` | tests/test_api/test_comment.py:146-162 | One request of the scenario: a reply to the last comment of a nested thread of length n >= 1 is refused with 400 and writes nothing exactly when n has reached the maximum; otherwise (and always for a top-level comment) one new row is stored, every other row is kept, and the thread grows by that row. |
| `JobCommentService.Store.NestUntilRefused` | tests/test_api/test_comment.py:132-162 | Starting with no parent and replying each time to the comment just created, the first `maxDepth` requests return 201 and request `maxDepth + 1` returns 400. Afterwards the table holds every earlier row unchanged plus exactly the `maxDepth` new rows, which form one nested thread with depths 1, 2, ..., `maxDepth`; the refused request wrote nothing. |
| `JobCommentService.DeletedAncestorCounted` | crud/comments.py:22-27 | A reply under a live reply to a soft-deleted top-level comment has depth 3: the deleted ancestor counts. |
| `JobCommentService.DeletedParentResetsDepth` | crud/comments.py:17-21 | In the chain 1 <- 2 (deleted) <- 3 <- 4, comment 3 has depth 1 while comment 4 has depth 4: the seed filter makes a deleted parent hide every comment above it. |
| `JobCommentService.DeletedParentOutcomes` | services/job_comment.py:22-38 | On that chain with a maximum of 2, a reply to comment 4 is refused with 400 while a reply to comment 3, four levels down, is stored. |

## Left out

- HTTP plumbing: `HTTPException` becomes the `Outcome` datatype with its status code and the values the detail message prints.
- The database session, the construction of the recursive query and `db.execute` are not modelled. The table is a map, and the query is the set it denotes.
- `crud_comments.get_by_uid` and `crud_comments.create` are outside the modelled core.
  - `FindByUid` skips soft-deleted rows. This is an assumption about `get_by_uid`, supported by the test that expects 404 when a deleted comment is fetched (tests/test_api/test_comment.py:92-103).
  - What `get_by_uid(uid=None)` answers is unknown, so it is the boolean parameter `uidNoneFound`.
  - `Insert` hands out ids and uids from two counters. These stand for the database's key sequence and for random UUID generation; the counters make uid uniqueness provable.
- The request schema's validation and the job and author lookups (the 404 for an unknown job) happen in callers that are not part of this model. The request keeps only the fields the service reads or rewrites: text, `parent_uid`, `parent_id` and `first_parent_uid`. The other fields pass through unchanged, as `text` does. An absent key and a key set to null are not told apart, because the service only tests them for truth.
- WebSocket notifications after a create are I/O and are left out.
- Like and unlike, update, delete and the author (403) checks are left out: their code is outside the modelled core.
- Users, passwords, email verification and folders are left out: they are request/response glue outside the modelled core.
- Timestamps and the async structure are left out. Each request is modelled as one atomic call, so a race between two concurrent creations is not modelled.
