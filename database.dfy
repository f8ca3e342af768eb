/** The repair-request store (src/database.py): the three SQLite tables
    requests, comments and users with their constraints (AUTOINCREMENT ids,
    the comments -> requests foreign key with ON DELETE CASCADE, UNIQUE
    usernames), the statements that change them, and the read-only queries
    as functions of the table contents. */
module Store {
  import opened Common
  import opened Dicts
  import opened SqlLike
  import Models

  /** The range of SQLite's 64-bit rowids. */
  const MinRowId: int := -9223372036854775808
  const MaxRowId: int := 9223372036854775807

  /** A row of requests, columns in schema order. */
  datatype Request = Request(
    id: int,
    createdDate: string,
    deviceType: string,
    deviceModel: string,
    problemDescription: string,
    clientName: string,
    clientPhone: string,
    status: string,
    masterName: Option<string>,
    deadline: Option<string>,
    completionDate: Option<string>,
    updatedDate: Option<string>)

  /** A row of comments. */
  datatype Comment = Comment(
    id: int,
    requestId: int,
    commentText: string,
    partsOrdered: Option<string>,
    addedDate: string,
    author: string)

  /** A row of users. */
  datatype User = User(id: int, username: string, passwordHash: string, role: string, fullName: string)

  /** The contents of the database: the rows of each table in rowid-scan
      order, and each table's sqlite_sequence entry (the largest id the
      table has ever held, 0 before the first insert). */
  datatype Tables = Tables(
    requests: seq<Request>,
    comments: seq<Comment>,
    users: seq<User>,
    requestSeq: int,
    commentSeq: int,
    userSeq: int)

  const EmptyTables := Tables([], [], [], 0, 0, 0)

  function Max(a: int, b: int): int { if a < b then b else a }

  predicate HasRequest(rows: seq<Request>, id: int)
  {
    exists i :: 0 <= i < |rows| && rows[i].id == id
  }

  predicate HasComment(rows: seq<Comment>, id: int)
  {
    exists i :: 0 <= i < |rows| && rows[i].id == id
  }

  predicate HasUsername(rows: seq<User>, name: string)
  {
    exists i :: 0 <= i < |rows| && rows[i].username == name
  }

  /** INTEGER PRIMARY KEY AUTOINCREMENT on requests: distinct ids, each
      within the 64-bit range and at most the table's sequence value. */
  predicate RequestKeys(rows: seq<Request>, sq: int)
  {
    0 <= sq <= MaxRowId &&
    (forall i :: 0 <= i < |rows| ==> MinRowId <= rows[i].id <= sq) &&
    (forall i, j :: 0 <= i < j < |rows| ==> rows[i].id != rows[j].id)
  }

  predicate CommentKeys(rows: seq<Comment>, sq: int)
  {
    0 <= sq <= MaxRowId &&
    (forall i :: 0 <= i < |rows| ==> MinRowId <= rows[i].id <= sq) &&
    (forall i, j :: 0 <= i < j < |rows| ==> rows[i].id != rows[j].id)
  }

  /** The users table's keys, and username UNIQUE. */
  predicate UserKeys(rows: seq<User>, sq: int)
  {
    0 <= sq <= MaxRowId &&
    (forall i :: 0 <= i < |rows| ==> MinRowId <= rows[i].id <= sq) &&
    (forall i, j :: 0 <= i < j < |rows| ==> rows[i].id != rows[j].id) &&
    (forall i, j :: 0 <= i < j < |rows| ==> rows[i].username != rows[j].username)
  }

  /** FOREIGN KEY (request_id) REFERENCES requests(id). */
  predicate ForeignKeys(comments: seq<Comment>, requests: seq<Request>)
  {
    forall i :: 0 <= i < |comments| ==> HasRequest(requests, comments[i].requestId)
  }

  predicate ValidTables(t: Tables)
  {
    RequestKeys(t.requests, t.requestSeq) && CommentKeys(t.comments, t.commentSeq) &&
    UserKeys(t.users, t.userSeq) && ForeignKeys(t.comments, t.requests)
  }

  /** The id AUTOINCREMENT gives a new row: one past the largest id the
      table ever held; None when that is the largest rowid (SQLITE_FULL). */
  function AutoId(sq: int): Option<int>
  {
    if sq < MaxRowId then Some(sq + 1) else None
  }

  lemma EmptyTablesValid()
    ensures ValidTables(EmptyTables)
  {
  }

  // ---------------------------------------------------------------------
  // add_request

  /** The row add_request inserts. */
  function NewRequest(id: int, now: string, deviceType: string, deviceModel: string,
                      problemDescription: string, clientName: string, clientPhone: string,
                      deadline: Option<string>): Request
  {
    Request(id, now, deviceType, deviceModel, problemDescription, clientName, clientPhone,
            Models.New, None, deadline, None, Some(now))
  }

  /** add_request: the new tables and the id of the inserted row (cursor.lastrowid),
      or None where SQLite fails with SQLITE_FULL and Python raises. */
  function AddRequestTo(t: Tables, now: string, deviceType: string, deviceModel: string,
                        problemDescription: string, clientName: string, clientPhone: string,
                        deadline: Option<string>): (Tables, Option<int>)
  {
    match AutoId(t.requestSeq)
    case None => (t, None)
    case Some(id) =>
      (t.(requests := t.requests + [NewRequest(id, now, deviceType, deviceModel, problemDescription,
                                               clientName, clientPhone, deadline)],
          requestSeq := id), Some(id))
  }

  /** add_request appends exactly one row: status "Новая", created and
      updated stamped with now, no master and no completion date, the given
      deadline; its id is positive and larger than every id in the table.
      Nothing else changes, and the tables stay consistent. It fails only
      when the id space is exhausted, changing nothing. */
  lemma AddRequestAppendsOne(t: Tables, now: string, deviceType: string, deviceModel: string,
                             problemDescription: string, clientName: string, clientPhone: string,
                             deadline: Option<string>)
    requires ValidTables(t)
    ensures var (t', id) := AddRequestTo(t, now, deviceType, deviceModel, problemDescription,
                                          clientName, clientPhone, deadline);
      (id.None? <==> t.requestSeq == MaxRowId) &&
      (id.None? ==> t' == t) &&
      (id.Some? ==>
        ValidTables(t') && id.value > 0 &&
        (forall i :: 0 <= i < |t.requests| ==> t.requests[i].id < id.value) &&
        |t'.requests| == |t.requests| + 1 && t'.requests[..|t.requests|] == t.requests &&
        var r := t'.requests[|t.requests|];
        r.id == id.value && r.status == Models.New && r.createdDate == now &&
        r.updatedDate == Some(now) && r.masterName.None? && r.completionDate.None? &&
        r.deadline == deadline && r.deviceType == deviceType && r.deviceModel == deviceModel &&
        r.problemDescription == problemDescription && r.clientName == clientName &&
        r.clientPhone == clientPhone &&
        t'.comments == t.comments && t'.users == t.users &&
        t'.commentSeq == t.commentSeq && t'.userSeq == t.userSeq)
  {
    var (t', id) := AddRequestTo(t, now, deviceType, deviceModel, problemDescription,
                                 clientName, clientPhone, deadline);
    if id.Some? {
      assert t'.requests[..|t.requests|] == t.requests;
      forall i | 0 <= i < |t.comments|
        ensures HasRequest(t'.requests, t.comments[i].requestId)
      {
        var k :| 0 <= k < |t.requests| && t.requests[k].id == t.comments[i].requestId;
        assert t'.requests[k] == t.requests[k];
      }
    }
  }

  // ---------------------------------------------------------------------
  // update_request_status

  /** True for a non-empty text: Python's truthiness of an optional str. */
  predicate Truthy(s: Option<string>) { s.Some? && s.value != "" }

  /** One "column = ?" item of the UPDATE's SET list. */
  datatype Assignment =
    | SetStatus(status: string)
    | SetUpdatedDate(updated: string)
    | SetCompletionDate(completed: string)
    | SetMasterName(master: string)
    | SetDeadline(deadline: string)

  function Assign(r: Request, a: Assignment): Request
  {
    match a
    case SetStatus(s) => r.(status := s)
    case SetUpdatedDate(u) => r.(updatedDate := Some(u))
    case SetCompletionDate(c) => r.(completionDate := Some(c))
    case SetMasterName(m) => r.(masterName := Some(m))
    case SetDeadline(d) => r.(deadline := Some(d))
  }

  function AssignAll(r: Request, fields: seq<Assignment>): Request
    decreases |fields|
  {
    if fields == [] then r else AssignAll(Assign(r, fields[0]), fields[1..])
  }

  /** UPDATE requests SET fields WHERE id = ?. */
  function UpdateWhere(rows: seq<Request>, id: int, fields: seq<Assignment>): (r: seq<Request>)
    ensures |r| == |rows|
    ensures forall i :: 0 <= i < |rows| ==>
      r[i] == if rows[i].id == id then AssignAll(rows[i], fields) else rows[i]
  {
    seq(|rows|, i requires 0 <= i < |rows| => if rows[i].id == id then AssignAll(rows[i], fields) else rows[i])
  }

  /** What update_request_status does to the matching row: the new status and
      updated_date; completion_date stamped for the two completion statuses and
      otherwise kept; master_name replaced only by a non-empty name. */
  function StatusUpdated(r: Request, newStatus: string, masterName: Option<string>, now: string): Request
  {
    r.(status := newStatus,
       updatedDate := Some(now),
       completionDate := if Models.IsCompletionStatus(newStatus) then Some(now) else r.completionDate,
       masterName := if Truthy(masterName) then masterName else r.masterName)
  }

  function UpdateStatusIn(t: Tables, id: int, newStatus: string, masterName: Option<string>, now: string): Tables
  {
    t.(requests := seq(|t.requests|, i requires 0 <= i < |t.requests| =>
         if t.requests[i].id == id then StatusUpdated(t.requests[i], newStatus, masterName, now)
         else t.requests[i]))
  }

  /** update_request_status changes only the row with that id: its status,
      updated_date, completion_date exactly for "Готова к выдаче" and
      "Завершена" (never cleared otherwise), master_name exactly when a
      non-empty name is given; every other column and row stays, and the
      tables stay consistent. */
  lemma UpdateStatusChangesOneRow(t: Tables, id: int, newStatus: string, masterName: Option<string>, now: string)
    requires ValidTables(t)
    ensures var t' := UpdateStatusIn(t, id, newStatus, masterName, now);
      ValidTables(t') &&
      t'.comments == t.comments && t'.users == t.users && t'.requestSeq == t.requestSeq &&
      |t'.requests| == |t.requests| &&
      forall i :: 0 <= i < |t.requests| ==>
        var (old_, new_) := (t.requests[i], t'.requests[i]);
        (old_.id != id ==> new_ == old_) &&
        (old_.id == id ==>
          new_.status == newStatus && new_.updatedDate == Some(now) &&
          (Models.IsCompletionStatus(newStatus) ==> new_.completionDate == Some(now)) &&
          (!Models.IsCompletionStatus(newStatus) ==> new_.completionDate == old_.completionDate) &&
          (Truthy(masterName) ==> new_.masterName == masterName) &&
          (!Truthy(masterName) ==> new_.masterName == old_.masterName) &&
          new_.id == old_.id && new_.createdDate == old_.createdDate &&
          new_.deviceType == old_.deviceType && new_.deviceModel == old_.deviceModel &&
          new_.problemDescription == old_.problemDescription &&
          new_.clientName == old_.clientName && new_.clientPhone == old_.clientPhone &&
          new_.deadline == old_.deadline)
  {
    var t' := UpdateStatusIn(t, id, newStatus, masterName, now);
    SameIdsKeepKeys(t.requests, t'.requests, t.requestSeq, t.comments);
  }

  /** Rows that keep their ids keep the keys and every foreign key valid. */
  lemma SameIdsKeepKeys(rows: seq<Request>, rows': seq<Request>, sq: int, comments: seq<Comment>)
    requires RequestKeys(rows, sq) && ForeignKeys(comments, rows)
    requires |rows'| == |rows| && forall i :: 0 <= i < |rows| ==> rows'[i].id == rows[i].id
    ensures RequestKeys(rows', sq) && ForeignKeys(comments, rows')
  {
    forall i | 0 <= i < |comments| ensures HasRequest(rows', comments[i].requestId) {
      var k :| 0 <= k < |rows| && rows[k].id == comments[i].requestId;
      assert rows'[k].id == comments[i].requestId;
    }
  }

  // ---------------------------------------------------------------------
  // extend_deadline

  function ExtendDeadlineIn(t: Tables, id: int, newDeadline: string, now: string): Tables
  {
    t.(requests := UpdateWhere(t.requests, id, [SetDeadline(newDeadline), SetUpdatedDate(now)]))
  }

  // ---------------------------------------------------------------------
  // add_comment

  /** add_comment: None where the INSERT fails (no request with that id, so
      the foreign key rejects it, or the id space is exhausted). */
  function AddCommentTo(t: Tables, requestId: int, commentText: string, partsOrdered: Option<string>,
                        author: string, now: string): Option<Tables>
  {
    if !HasRequest(t.requests, requestId) then None
    else match AutoId(t.commentSeq)
      case None => None
      case Some(id) =>
        Some(t.(comments := t.comments + [Comment(id, requestId, commentText, partsOrdered, now, author)],
                commentSeq := id))
  }

  /** A comment on an existing request is appended with added_date now and a
      fresh id; a comment on a missing request is refused, leaving every
      table as it was. */
  lemma AddCommentChecksRequest(t: Tables, requestId: int, commentText: string, partsOrdered: Option<string>,
                                author: string, now: string)
    requires ValidTables(t)
    ensures var r := AddCommentTo(t, requestId, commentText, partsOrdered, author, now);
      (r.Some? <==> HasRequest(t.requests, requestId) && t.commentSeq < MaxRowId) &&
      (r.Some? ==>
        ValidTables(r.value) &&
        r.value.requests == t.requests && r.value.users == t.users &&
        |r.value.comments| == |t.comments| + 1 && r.value.comments[..|t.comments|] == t.comments &&
        var c := r.value.comments[|t.comments|];
        c.requestId == requestId && c.commentText == commentText && c.partsOrdered == partsOrdered &&
        c.addedDate == now && c.author == author &&
        forall i :: 0 <= i < |t.comments| ==> t.comments[i].id < c.id)
  {
    var r := AddCommentTo(t, requestId, commentText, partsOrdered, author, now);
    if r.Some? {
      assert r.value.comments[..|t.comments|] == t.comments;
    }
  }

  // ---------------------------------------------------------------------
  // DELETE FROM requests WHERE id = ? (issued by the GUI)

  /** The rows of a table satisfying keep, in order. */
  function Select<T(!new)>(rows: seq<T>, keep: T -> bool): (r: seq<T>)
    ensures |r| <= |rows|
    ensures forall i :: 0 <= i < |r| ==> r[i] in rows && keep(r[i])
    ensures forall x :: x in rows && keep(x) ==> x in r
  {
    if rows == [] then []
    else
      var init, last := rows[..|rows| - 1], rows[|rows| - 1];
      assert rows == init + [last];
      Select(init, keep) + (if keep(last) then [last] else [])
  }

  /** A narrower filter keeps no more rows. */
  lemma {:induction false} SelectNarrower<T(!new)>(rows: seq<T>, narrow: T -> bool, wide: T -> bool)
    requires forall x :: narrow(x) ==> wide(x)
    ensures |Select(rows, narrow)| <= |Select(rows, wide)|
  {
    if rows != [] {
      SelectNarrower(rows[..|rows| - 1], narrow, wide);
    }
  }

  /** Select keeps every kept row as often as the table holds it. */
  lemma {:induction false} SelectMultiset<T(!new)>(rows: seq<T>, keep: T -> bool)
    ensures forall x :: multiset(Select(rows, keep))[x] == if keep(x) then multiset(rows)[x] else 0
  {
    if rows != [] {
      var init, last := rows[..|rows| - 1], rows[|rows| - 1];
      assert rows == init + [last];
      SelectMultiset(init, keep);
    }
  }

  function DeleteRequestFrom(t: Tables, id: int): Tables
  {
    t.(requests := Select(t.requests, (r: Request) => r.id != id),
       comments := Select(t.comments, (c: Comment) => c.requestId != id))
  }

  /** Deleting a request removes it and, by ON DELETE CASCADE, exactly its
      comments; every other row stays, sequences are kept (so ids are never
      reused), and the foreign key still holds. */
  lemma DeleteCascades(t: Tables, id: int)
    requires ValidTables(t)
    ensures var t' := DeleteRequestFrom(t, id);
      ValidTables(t') && !HasRequest(t'.requests, id) &&
      (forall r :: r in t'.requests <==> r in t.requests && r.id != id) &&
      (forall c :: c in t'.comments <==> c in t.comments && c.requestId != id) &&
      t'.users == t.users && t'.requestSeq == t.requestSeq && t'.commentSeq == t.commentSeq
  {
    var t' := DeleteRequestFrom(t, id);
    SelectKeepsRequestKeys(t.requests, t.requestSeq, (r: Request) => r.id != id);
    SelectKeepsCommentKeys(t.comments, t.commentSeq, (c: Comment) => c.requestId != id);
    forall i | 0 <= i < |t'.comments| ensures HasRequest(t'.requests, t'.comments[i].requestId) {
      var c := t'.comments[i];
      var j :| 0 <= j < |t.comments| && t.comments[j] == c;
      var k :| 0 <= k < |t.requests| && t.requests[k].id == c.requestId;
      assert t.requests[k] in t'.requests;
    }
  }

  lemma {:induction false} SelectKeepsRequestKeys(rows: seq<Request>, sq: int, keep: Request -> bool)
    requires RequestKeys(rows, sq)
    ensures RequestKeys(Select(rows, keep), sq)
  {
    if rows != [] {
      var init, last := rows[..|rows| - 1], rows[|rows| - 1];
      assert rows == init + [last];
      SelectKeepsRequestKeys(init, sq, keep);
      var s := Select(init, keep);
      forall i | 0 <= i < |s| ensures s[i].id != last.id {
        var j :| 0 <= j < |init| && init[j] == s[i];
      }
    }
  }

  lemma {:induction false} SelectKeepsCommentKeys(rows: seq<Comment>, sq: int, keep: Comment -> bool)
    requires CommentKeys(rows, sq)
    ensures CommentKeys(Select(rows, keep), sq)
  {
    if rows != [] {
      var init, last := rows[..|rows| - 1], rows[|rows| - 1];
      assert rows == init + [last];
      SelectKeepsCommentKeys(init, sq, keep);
      var s := Select(init, keep);
      forall i | 0 <= i < |s| ensures s[i].id != last.id {
        var j :| 0 <= j < |init| && init[j] == s[i];
      }
    }
  }

  /** extend_deadline changes only deadline and updated_date of the row with
      that id; every other column and row stays. */
  lemma ExtendDeadlineChangesOneRow(t: Tables, id: int, newDeadline: string, now: string)
    requires ValidTables(t)
    ensures var t' := ExtendDeadlineIn(t, id, newDeadline, now);
      ValidTables(t') &&
      t'.comments == t.comments && t'.users == t.users && t'.requestSeq == t.requestSeq &&
      |t'.requests| == |t.requests| &&
      forall i :: 0 <= i < |t.requests| ==>
        t'.requests[i] == if t.requests[i].id == id
          then t.requests[i].(deadline := Some(newDeadline), updatedDate := Some(now))
          else t.requests[i]
  {
    var t' := ExtendDeadlineIn(t, id, newDeadline, now);
    var fields := [SetDeadline(newDeadline), SetUpdatedDate(now)];
    forall r: Request ensures AssignAll(r, fields) == r.(deadline := Some(newDeadline), updatedDate := Some(now)) {
      var r1 := Assign(r, fields[0]);
      assert AssignAll(r, fields) == AssignAll(r1, fields[1..]);
      assert AssignAll(r1, fields[1..]) == AssignAll(Assign(r1, fields[1]), []);
    }
    SameIdsKeepKeys(t.requests, t'.requests, t.requestSeq, t.comments);
  }

  // ---------------------------------------------------------------------
  // ORDER BY created_date DESC

  /** created_date never increases along the rows (binary text order). */
  predicate NewestFirst(rows: seq<Request>)
  {
    forall i :: 0 < i < |rows| ==> TextLe(rows[i].createdDate, rows[i - 1].createdDate)
  }

  lemma {:induction false} NewestFirstPairs(rows: seq<Request>, i: nat, j: nat)
    requires NewestFirst(rows) && i <= j < |rows|
    ensures TextLe(rows[j].createdDate, rows[i].createdDate)
    decreases j - i
  {
    if i == j {
      TextLeReflexive(rows[i].createdDate);
    } else {
      NewestFirstPairs(rows, i + 1, j);
      TextLeTransitive(rows[j].createdDate, rows[i + 1].createdDate, rows[i].createdDate);
    }
  }

  function InsertNewestFirst(e: Request, rows: seq<Request>): (r: seq<Request>)
    requires NewestFirst(rows)
    ensures NewestFirst(r)
    ensures multiset(r) == multiset(rows) + multiset{e}
    ensures r != [] && (r[0] == e || (rows != [] && r[0] == rows[0]))
  {
    if rows == [] || TextLe(rows[0].createdDate, e.createdDate) then [e] + rows
    else
      TextLeTotal(rows[0].createdDate, e.createdDate);
      var rest := InsertNewestFirst(e, rows[1..]);
      assert rows == [rows[0]] + rows[1..];
      assert ([rows[0]] + rest)[1..] == rest;
      [rows[0]] + rest
  }

  /** ORDER BY created_date DESC, as a stable sort of the scanned rows
      (SQL leaves the order of equal dates open). */
  function SortNewestFirst(rows: seq<Request>): (r: seq<Request>)
    ensures NewestFirst(r)
    ensures multiset(r) == multiset(rows)
  {
    if rows == [] then []
    else
      assert rows == [rows[0]] + rows[1..];
      InsertNewestFirst(rows[0], SortNewestFirst(rows[1..]))
  }

  // ---------------------------------------------------------------------
  // get_all_requests

  /** The WHERE clause of get_all_requests: no clause for an absent or
      empty filter, status = filter otherwise. */
  function StatusFilter(statusFilter: Option<string>): Request -> bool
  {
    (r: Request) => !Truthy(statusFilter) || r.status == statusFilter.value
  }

  function GetAllRequests(rows: seq<Request>, statusFilter: Option<string>): seq<Request>
  {
    SortNewestFirst(Select(rows, StatusFilter(statusFilter)))
  }

  /** get_all_requests returns, newest first, every row when the filter is
      absent or empty and exactly the rows with that status otherwise, each
      as often as the table holds it. */
  lemma GetAllRequestsSelects(rows: seq<Request>, statusFilter: Option<string>)
    ensures NewestFirst(GetAllRequests(rows, statusFilter))
    ensures !Truthy(statusFilter) ==> multiset(GetAllRequests(rows, statusFilter)) == multiset(rows)
    ensures Truthy(statusFilter) ==> forall x ::
      multiset(GetAllRequests(rows, statusFilter))[x] ==
        if x.status == statusFilter.value then multiset(rows)[x] else 0
  {
    var keep := StatusFilter(statusFilter);
    SelectMultiset(rows, keep);
    if !Truthy(statusFilter) {
      var r := GetAllRequests(rows, statusFilter);
      forall x ensures multiset(r)[x] == multiset(rows)[x] {
        assert keep(x);
      }
      assert multiset(r) == multiset(rows);
    }
  }

  // ---------------------------------------------------------------------
  // search_requests

  /** The WHERE clause of search_requests for the pattern p. */
  predicate SearchHit(p: string, r: Request)
  {
    Like(p, IntToDecimal(r.id)) || Like(p, r.clientName) || Like(p, r.clientPhone) || Like(p, r.deviceModel)
  }

  function SearchRequests(rows: seq<Request>, searchTerm: string): seq<Request>
  {
    var pattern := "%" + searchTerm + "%";
    SortNewestFirst(Select(rows, (r: Request) => SearchHit(pattern, r)))
  }

  /** search_requests returns, newest first, exactly the rows in which the
      term (with '%' and '_' as wildcards) occurs in the decimal id, the
      client name, the phone or the device model. For a term without
      wildcards that is an ASCII-case-insensitive substring search. */
  lemma SearchRequestsFinds(rows: seq<Request>, searchTerm: string)
    ensures NewestFirst(SearchRequests(rows, searchTerm))
    ensures forall x :: (multiset(SearchRequests(rows, searchTerm))[x] ==
      if SearchHit("%" + searchTerm + "%", x) then multiset(rows)[x] else 0)
  {
    var pattern := "%" + searchTerm + "%";
    SelectMultiset(rows, (r: Request) => SearchHit(pattern, r));
  }

  /** A term without wildcards matches a row exactly when it occurs in one
      of the four searched columns. */
  lemma SearchHitLiteral(searchTerm: string, x: Request)
    requires Literal(searchTerm)
    ensures SearchHit("%" + searchTerm + "%", x) <==>
      (Occurs(searchTerm, IntToDecimal(x.id)) || Occurs(searchTerm, x.clientName) ||
       Occurs(searchTerm, x.clientPhone) || Occurs(searchTerm, x.deviceModel))
  {
    SubstringSearch(searchTerm, IntToDecimal(x.id));
    SubstringSearch(searchTerm, x.clientName);
    SubstringSearch(searchTerm, x.clientPhone);
    SubstringSearch(searchTerm, x.deviceModel);
  }

  /** For such a term search_requests is a substring search. */
  lemma SearchRequestsLiteral(rows: seq<Request>, searchTerm: string)
    requires Literal(searchTerm)
    ensures forall x :: (x in SearchRequests(rows, searchTerm) <==>
      x in rows &&
      (Occurs(searchTerm, IntToDecimal(x.id)) || Occurs(searchTerm, x.clientName) ||
       Occurs(searchTerm, x.clientPhone) || Occurs(searchTerm, x.deviceModel)))
  {
    SearchRequestsFinds(rows, searchTerm);
    forall x
      ensures x in SearchRequests(rows, searchTerm) <==> x in rows && SearchHit("%" + searchTerm + "%", x)
    {
      assert x in SearchRequests(rows, searchTerm) <==> multiset(SearchRequests(rows, searchTerm))[x] > 0;
    }
    forall x
      ensures SearchHit("%" + searchTerm + "%", x) <==>
        (Occurs(searchTerm, IntToDecimal(x.id)) || Occurs(searchTerm, x.clientName) ||
         Occurs(searchTerm, x.clientPhone) || Occurs(searchTerm, x.deviceModel))
    {
      SearchHitLiteral(searchTerm, x);
    }
  }


  // ---------------------------------------------------------------------
  // get_request_statistics

  /** The counting parts of get_request_statistics (average_completion_hours
      is not modelled). */
  datatype Statistics = Statistics(totalRequests: nat, statusCounts: Dict<nat>, deviceStatistics: Dict<nat>)

  function Statuses(rows: seq<Request>): (s: seq<string>)
    ensures |s| == |rows| && forall i :: 0 <= i < |rows| ==> s[i] == rows[i].status
  {
    seq(|rows|, i requires 0 <= i < |rows| => rows[i].status)
  }

  function DeviceTypesOf(rows: seq<Request>): (s: seq<string>)
    ensures |s| == |rows| && forall i :: 0 <= i < |rows| ==> s[i] == rows[i].deviceType
  {
    seq(|rows|, i requires 0 <= i < |rows| => rows[i].deviceType)
  }

  /** SELECT COUNT(*) and the two GROUP BY ... COUNT(*) queries. */
  function GetRequestStatistics(rows: seq<Request>): Statistics
  {
    Statistics(|rows|, Tally(Statuses(rows)), Tally(DeviceTypesOf(rows)))
  }

  /** total_requests is the row count; status_counts and device_statistics
      hold each status / device type once with its number of rows, nothing
      else, and their counts both add up to total_requests. */
  lemma StatisticsCount(rows: seq<Request>)
    ensures var st := GetRequestStatistics(rows);
      st.totalRequests == |rows| &&
      Total(st.statusCounts) == st.totalRequests && Total(st.deviceStatistics) == st.totalRequests &&
      DistinctKeys(st.statusCounts) && DistinctKeys(st.deviceStatistics) &&
      (forall s :: Get(st.statusCounts, s) ==
        if s in Statuses(rows) then Some(Count(Statuses(rows), s)) else None) &&
      (forall d :: Get(st.deviceStatistics, d) ==
        if d in DeviceTypesOf(rows) then Some(Count(DeviceTypesOf(rows), d)) else None)
  {
    TallyCounts(Statuses(rows));
    TallyCounts(DeviceTypesOf(rows));
  }

  // ---------------------------------------------------------------------
  // Login (src/login.py): SELECT ... FROM users WHERE username = ? AND password_hash = ?

  function Authenticate(users: seq<User>, login: string, passwordHash: string): (r: Option<User>)
    ensures r.Some? ==> r.value in users && r.value.username == login && r.value.passwordHash == passwordHash
    ensures r.None? ==> forall u :: u in users ==> !(u.username == login && u.passwordHash == passwordHash)
  {
    if users == [] then None
    else if users[0].username == login && users[0].passwordHash == passwordHash then Some(users[0])
    else Authenticate(users[1..], login, passwordHash)
  }

  /** With usernames unique, the login query finds the one user holding that
      username and password hash, whatever the scan order. */
  lemma AuthenticateFindsTheUser(users: seq<User>, sq: int, u: User)
    requires UserKeys(users, sq) && u in users
    ensures Authenticate(users, u.username, u.passwordHash) == Some(u)
  {
    var r := Authenticate(users, u.username, u.passwordHash);
    var i :| 0 <= i < |users| && users[i] == u;
    var j :| 0 <= j < |users| && users[j] == r.value;
    assert users[i].username == users[j].username;
  }

  // ---------------------------------------------------------------------
  // The INSERT OR IGNORE statements of the CSV import (src/import_csv.py)

  /** INSERT OR IGNORE INTO users: a taken username leaves the table as it
      is; otherwise a row with the next AUTOINCREMENT id is appended. None
      where SQLite fails (SQLITE_FULL). */
  function InsertUserOrIgnore(t: Tables, username: string, passwordHash: string, role: string,
                              fullName: string): Option<Tables>
  {
    if HasUsername(t.users, username) then Some(t)
    else match AutoId(t.userSeq)
      case None => None
      case Some(id) =>
        Some(t.(users := t.users + [User(id, username, passwordHash, role, fullName)], userSeq := id))
  }

  /** The new user is stored unless the username is taken, in which case
      nothing changes; the username stays unique either way. */
  lemma InsertUserKeepsUnique(t: Tables, username: string, passwordHash: string, role: string, fullName: string)
    requires ValidTables(t)
    ensures var r := InsertUserOrIgnore(t, username, passwordHash, role, fullName);
      (HasUsername(t.users, username) ==> r == Some(t)) &&
      (!HasUsername(t.users, username) && t.userSeq < MaxRowId ==>
        r.Some? && r.value.users[..|t.users|] == t.users &&
        r.value.users[|t.users|] == User(t.userSeq + 1, username, passwordHash, role, fullName)) &&
      (r.Some? ==> (ValidTables(r.value) && HasUsername(r.value.users, username) &&
        r.value.requests == t.requests && r.value.comments == t.comments))
  {
    var r := InsertUserOrIgnore(t, username, passwordHash, role, fullName);
    if r.Some? && !HasUsername(t.users, username) {
      var u := r.value.users;
      assert u[..|t.users|] == t.users;
      assert u[|t.users|].username == username;
    }
  }

  /** SELECT full_name FROM users WHERE id = ?: the first row with that id. */
  function FullNameOf(users: seq<User>, id: int): (r: Option<string>)
    ensures r.Some? <==> exists i :: 0 <= i < |users| && users[i].id == id
    ensures r.Some? ==> exists i :: 0 <= i < |users| && users[i].id == id && users[i].fullName == r.value
  {
    if users == [] then None
    else if users[0].id == id then Some(users[0].fullName)
    else
      var r := FullNameOf(users[1..], id);
      if r.Some? then
        assert exists i :: 0 <= i < |users| && users[i].id == id && users[i].fullName == r.value by {
          var i :| 0 <= i < |users[1..]| && users[1..][i].id == id && users[1..][i].fullName == r.value;
          assert users[i + 1] == users[1..][i];
        }
        r
      else
        r
  }

  /** INSERT OR IGNORE INTO requests with an explicit id: a taken id leaves
      the table as it is; otherwise the row is appended and the sequence
      raised to the id if it is larger. */
  function InsertRequestOrIgnore(t: Tables, r: Request): Tables
  {
    if HasRequest(t.requests, r.id) then t
    else t.(requests := t.requests + [r], requestSeq := Max(t.requestSeq, r.id))
  }

  lemma InsertRequestKeepsKeys(t: Tables, r: Request)
    requires ValidTables(t) && MinRowId <= r.id <= MaxRowId
    ensures var t' := InsertRequestOrIgnore(t, r);
      ValidTables(t') && HasRequest(t'.requests, r.id) && t'.requestSeq >= t.requestSeq &&
      t'.requests[..|t.requests|] == t.requests &&
      (HasRequest(t.requests, r.id) ==> t' == t) &&
      (!HasRequest(t.requests, r.id) ==> t'.requests == t.requests + [r])
  {
    var t' := InsertRequestOrIgnore(t, r);
    if !HasRequest(t.requests, r.id) {
      assert t'.requests[|t.requests|] == r;
      forall i | 0 <= i < |t.comments| ensures HasRequest(t'.requests, t.comments[i].requestId) {
        var k :| 0 <= k < |t.requests| && t.requests[k].id == t.comments[i].requestId;
        assert t'.requests[k] == t.requests[k];
      }
    }
  }

  /** INSERT OR IGNORE INTO comments with an explicit id: a taken id leaves
      the table as it is; a missing request fails the foreign key (None);
      otherwise the row is appended. */
  function InsertCommentOrIgnore(t: Tables, c: Comment): Option<Tables>
  {
    if HasComment(t.comments, c.id) then Some(t)
    else if !HasRequest(t.requests, c.requestId) then None
    else Some(t.(comments := t.comments + [c], commentSeq := Max(t.commentSeq, c.id)))
  }

  lemma InsertCommentKeepsKeys(t: Tables, c: Comment)
    requires ValidTables(t) && MinRowId <= c.id <= MaxRowId
    ensures var r := InsertCommentOrIgnore(t, c);
      (r.None? <==> !HasComment(t.comments, c.id) && !HasRequest(t.requests, c.requestId)) &&
      (r.Some? ==> (ValidTables(r.value) && HasComment(r.value.comments, c.id) &&
        r.value.requests == t.requests && r.value.users == t.users &&
        r.value.comments[..|t.comments|] == t.comments &&
        (HasComment(t.comments, c.id) ==> r.value == t) &&
        (!HasComment(t.comments, c.id) ==> r.value.comments == t.comments + [c])))
  {
    var r := InsertCommentOrIgnore(t, c);
    if r.Some? && !HasComment(t.comments, c.id) {
      assert r.value.comments[|t.comments|] == c;
    }
  }

  // ---------------------------------------------------------------------
  // The Database object

  /** The store as the application holds it: the three tables, updated in
      place by each statement. */
  class Database {
    var requests: seq<Request>
    var comments: seq<Comment>
    var users: seq<User>
    var requestSeq: int
    var commentSeq: int
    var userSeq: int
    /** Every request id the table has ever held, deleted rows included. */
    ghost var issuedRequestIds: set<int>

    function Snapshot(): Tables
      reads this
    {
      Tables(requests, comments, users, requestSeq, commentSeq, userSeq)
    }

    ghost predicate Valid()
      reads this
    {
      ValidTables(Snapshot()) &&
      (forall x :: x in issuedRequestIds ==> x <= requestSeq) &&
      (forall i :: 0 <= i < |requests| ==> requests[i].id in issuedRequestIds)
    }

    /** A freshly created database: empty tables. */
    constructor()
      ensures Valid() && Snapshot() == EmptyTables && issuedRequestIds == {}
    {
      requests, comments, users := [], [], [];
      requestSeq, commentSeq, userSeq := 0, 0, 0;
      issuedRequestIds := {};
    }

    /** add_request; None where Python raises. The id is larger than every
        id the table ever held, so ids are never reused. */
    method AddRequest(now: string, deviceType: string, deviceModel: string, problemDescription: string,
                      clientName: string, clientPhone: string, deadline: Option<string>)
      returns (id: Option<int>)
      requires Valid()
      modifies this
      ensures Valid()
      ensures (Snapshot(), id) == AddRequestTo(old(Snapshot()), now, deviceType, deviceModel,
                                               problemDescription, clientName, clientPhone, deadline)
      ensures id.Some? ==> id.value > 0 && forall x :: x in old(issuedRequestIds) ==> x < id.value
      ensures issuedRequestIds == old(issuedRequestIds) + (if id.Some? then {id.value} else {})
    {
      AddRequestAppendsOne(Snapshot(), now, deviceType, deviceModel, problemDescription,
                           clientName, clientPhone, deadline);
      id := AutoId(requestSeq);
      if id.Some? {
        requests := requests + [NewRequest(id.value, now, deviceType, deviceModel, problemDescription,
                                           clientName, clientPhone, deadline)];
        requestSeq := id.value;
        issuedRequestIds := issuedRequestIds + {id.value};
      }
    }

    /** update_request_status: builds the SET list item by item as the
        source does, then updates the row with that id; true iff it exists. */
    method UpdateRequestStatus(requestId: int, newStatus: string, masterName: Option<string>, now: string)
      returns (updated: bool)
      requires Valid()
      modifies this
      ensures Valid() && issuedRequestIds == old(issuedRequestIds)
      ensures updated <==> HasRequest(old(requests), requestId)
      ensures Snapshot() == UpdateStatusIn(old(Snapshot()), requestId, newStatus, masterName, now)
    {
      ghost var target := UpdateStatusIn(Snapshot(), requestId, newStatus, masterName, now);
      UpdateStatusChangesOneRow(Snapshot(), requestId, newStatus, masterName, now);
      var fields := [SetStatus(newStatus), SetUpdatedDate(now)];
      if Models.IsCompletionStatus(newStatus) {
        fields := fields + [SetCompletionDate(now)];
      }
      if Truthy(masterName) {
        fields := fields + [SetMasterName(masterName.value)];
      }
      updated := HasRequest(requests, requestId);
      var rows := UpdateWhere(requests, requestId, fields);
      assert rows == target.requests by {
        forall i | 0 <= i < |rows| ensures rows[i] == target.requests[i] {
          StatusFieldsAssign(requests[i], newStatus, masterName, now);
        }
      }
      requests := rows;
    }

    /** extend_deadline: true iff a row has that id. */
    method ExtendDeadline(requestId: int, newDeadline: string, now: string) returns (extended: bool)
      requires Valid()
      modifies this
      ensures Valid() && issuedRequestIds == old(issuedRequestIds)
      ensures extended <==> HasRequest(old(requests), requestId)
      ensures Snapshot() == ExtendDeadlineIn(old(Snapshot()), requestId, newDeadline, now)
    {
      ExtendDeadlineChangesOneRow(Snapshot(), requestId, newDeadline, now);
      extended := HasRequest(requests, requestId);
      requests := UpdateWhere(requests, requestId, [SetDeadline(newDeadline), SetUpdatedDate(now)]);
    }

    /** add_comment: true and one more comment when the request exists;
        false and nothing changed when the INSERT fails. */
    method AddComment(requestId: int, commentText: string, partsOrdered: Option<string>, author: string, now: string)
      returns (added: bool)
      requires Valid()
      modifies this
      ensures Valid() && issuedRequestIds == old(issuedRequestIds)
      ensures var r := AddCommentTo(old(Snapshot()), requestId, commentText, partsOrdered, author, now);
        added == r.Some? && Snapshot() == (if added then r.value else old(Snapshot()))
    {
      AddCommentChecksRequest(Snapshot(), requestId, commentText, partsOrdered, author, now);
      var r := AddCommentTo(Snapshot(), requestId, commentText, partsOrdered, author, now);
      added := r.Some?;
      if added {
        comments, commentSeq := r.value.comments, r.value.commentSeq;
      }
    }

    /** DELETE FROM requests WHERE id = ?, cascading to the comments. */
    method DeleteRequest(requestId: int)
      requires Valid()
      modifies this
      ensures Valid() && issuedRequestIds == old(issuedRequestIds)
      ensures Snapshot() == DeleteRequestFrom(old(Snapshot()), requestId)
    {
      DeleteCascades(Snapshot(), requestId);
      var t := DeleteRequestFrom(Snapshot(), requestId);
      requests, comments := t.requests, t.comments;
    }

    /** The import's INSERT OR IGNORE INTO users; false where it raises. */
    method InsertUser(username: string, passwordHash: string, role: string, fullName: string)
      returns (ok: bool)
      requires Valid()
      modifies this
      ensures Valid() && issuedRequestIds == old(issuedRequestIds)
      ensures var r := InsertUserOrIgnore(old(Snapshot()), username, passwordHash, role, fullName);
        ok == r.Some? && Snapshot() == (if ok then r.value else old(Snapshot()))
    {
      InsertUserKeepsUnique(Snapshot(), username, passwordHash, role, fullName);
      var r := InsertUserOrIgnore(Snapshot(), username, passwordHash, role, fullName);
      ok := r.Some?;
      if ok {
        users, userSeq := r.value.users, r.value.userSeq;
      }
    }

    /** The import's INSERT OR IGNORE INTO requests with an explicit id. */
    method InsertRequest(r: Request)
      requires Valid() && MinRowId <= r.id <= MaxRowId
      modifies this
      ensures Valid() && issuedRequestIds == old(issuedRequestIds) + {r.id}
      ensures Snapshot() == InsertRequestOrIgnore(old(Snapshot()), r)
    {
      InsertRequestKeepsKeys(Snapshot(), r);
      var t := InsertRequestOrIgnore(Snapshot(), r);
      requests, requestSeq := t.requests, t.requestSeq;
      issuedRequestIds := issuedRequestIds + {r.id};
      forall i | 0 <= i < |requests| ensures requests[i].id in issuedRequestIds {
        if i < |old(requests)| { assert requests[i] == old(requests)[i]; }
      }
    }

    /** The import's INSERT OR IGNORE INTO comments; false where it raises. */
    method InsertComment(c: Comment) returns (ok: bool)
      requires Valid() && MinRowId <= c.id <= MaxRowId
      modifies this
      ensures Valid() && issuedRequestIds == old(issuedRequestIds)
      ensures var r := InsertCommentOrIgnore(old(Snapshot()), c);
        ok == r.Some? && Snapshot() == (if ok then r.value else old(Snapshot()))
    {
      InsertCommentKeepsKeys(Snapshot(), c);
      var r := InsertCommentOrIgnore(Snapshot(), c);
      ok := r.Some?;
      if ok {
        comments, commentSeq := r.value.comments, r.value.commentSeq;
      }
    }
  }

  lemma {:induction false} AssignAllSnoc(r: Request, fields: seq<Assignment>, a: Assignment)
    ensures AssignAll(r, fields + [a]) == Assign(AssignAll(r, fields), a)
    decreases |fields|
  {
    if fields == [] {
      assert ([] + [a])[1..] == [];
    } else {
      assert (fields + [a])[1..] == fields[1..] + [a];
      AssignAllSnoc(Assign(r, fields[0]), fields[1..], a);
    }
  }

  /** The SET list update_request_status builds has exactly the effect
      StatusUpdated describes. */
  lemma StatusFieldsAssign(r: Request, newStatus: string, masterName: Option<string>, now: string)
    ensures var f0 := [SetStatus(newStatus), SetUpdatedDate(now)];
      var f1 := if Models.IsCompletionStatus(newStatus) then f0 + [SetCompletionDate(now)] else f0;
      var f2 := if Truthy(masterName) then f1 + [SetMasterName(masterName.value)] else f1;
      AssignAll(r, f2) == StatusUpdated(r, newStatus, masterName, now)
  {
    var f0 := [SetStatus(newStatus), SetUpdatedDate(now)];
    var f1 := if Models.IsCompletionStatus(newStatus) then f0 + [SetCompletionDate(now)] else f0;
    var f2 := if Truthy(masterName) then f1 + [SetMasterName(masterName.value)] else f1;
    assert AssignAll(r, [SetStatus(newStatus)]) == r.(status := newStatus) by {
      assert [SetStatus(newStatus)][1..] == [];
    }
    AssignAllSnoc(r, [SetStatus(newStatus)], SetUpdatedDate(now));
    assert [SetStatus(newStatus)] + [SetUpdatedDate(now)] == f0;
    if Models.IsCompletionStatus(newStatus) { AssignAllSnoc(r, f0, SetCompletionDate(now)); }
    if Truthy(masterName) { AssignAllSnoc(r, f1, SetMasterName(masterName.value)); }
  }
}
