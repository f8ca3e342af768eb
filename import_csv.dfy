/** The CSV import (src/import_csv.py): three loops over the rows of a
    ';'-separated file, each issuing INSERT OR IGNORE against the store.
    A row is what csv.DictReader yields, a map from column name to text;
    reading the file is not modelled. A loop stops at the first row that
    raises (a missing column, or a value SQLite cannot store), keeping the
    rows inserted before it. */
module ImportCsv {
  import opened Common
  import opened Timestamps
  import opened Store
  import Algorithms

  /** One row of csv.DictReader. */
  type CsvRow = map<string, string>

  /** The tables after an import, and false where the import raised. */
  datatype Outcome = Outcome(tables: Tables, ok: bool)

  /** The rows applied in order by step, stopping at the first that fails. */
  function Imported(t: Tables, rows: seq<CsvRow>, step: (Tables, CsvRow) -> Outcome): Outcome
  {
    if rows == [] then Outcome(t, true)
    else
      var before := Imported(t, rows[..|rows| - 1], step);
      if before.ok then step(before.tables, rows[|rows| - 1]) else before
  }

  /** The text SQLite stores in an INTEGER PRIMARY KEY column: an integer
      literal within the 64-bit range; anything else is a datatype mismatch. */
  function RowId(s: string): (r: Option<int>)
    ensures r.Some? ==> MinRowId <= r.value <= MaxRowId && ParseInt(s) == r
  {
    match ParseInt(s)
    case Some(n) => if MinRowId <= n <= MaxRowId then Some(n) else None
    case None => None
  }

  // ---------------------------------------------------------------------
  // import_users

  /** The CSV's type column, lower-cased, to the role stored. */
  const RoleMap: map<string, string> := map[
    "менеджер" := "manager",
    "мастер" := "master",
    "оператор" := "operator",
    "администратор" := "admin",
    "заказчик" := "client"
  ]

  const DefaultRole := "client"

  /** The roles the application knows. */
  const Roles: set<string> := {"manager", "master", "operator", "admin", "client"}

  /** role_map.get(type.strip().lower(), "client"). */
  function RoleOf(userType: string): (role: string)
    ensures role in Roles
  {
    var key := Lower(Strip(userType));
    if key in RoleMap then RoleMap[key] else DefaultRole
  }

  predicate UserColumnsIn(row: CsvRow)
  {
    "login" in row && "password" in row && "fio" in row && "type" in row
  }

  /** One pass of the users loop. */
  function ImportUserRow(t: Tables, row: CsvRow, hash: string -> string): Outcome
  {
    if !UserColumnsIn(row) then Outcome(t, false)
    else
      match InsertUserOrIgnore(t, Strip(row["login"]), hash(Strip(row["password"])), RoleOf(row["type"]),
                               Strip(row["fio"]))
      case None => Outcome(t, false)
      case Some(t') => Outcome(t', true)
  }

  function UserStep(hash: string -> string): (Tables, CsvRow) -> Outcome
  {
    (t: Tables, row: CsvRow) => ImportUserRow(t, row, hash)
  }

  // ---------------------------------------------------------------------
  // import_requests

  const UnknownClient := "Неизвестный клиент"

  const PlaceholderPhone := "+7 (000) 000-00-00"

  /** The time of day appended to the CSV's dates. */
  const Midnight := " 00:00:00"

  predicate RequestColumnsIn(row: CsvRow)
  {
    "clientID" in row && "requestID" in row && "startDate" in row && "homeTechType" in row &&
    "homeTechModel" in row && "problemDescryption" in row && "requestStatus" in row && "completionDate" in row
  }

  /** SELECT full_name FROM users WHERE id = clientID, or the placeholder
      name when no user has that id. */
  function ClientNameOf(users: seq<User>, clientId: string): (name: string)
    ensures (exists i :: 0 <= i < |users| && ParseInt(clientId) == Some(users[i].id) && users[i].fullName == name) ||
            (name == UnknownClient && forall i :: 0 <= i < |users| ==> ParseInt(clientId) != Some(users[i].id))
  {
    match ParseInt(clientId)
    case None => UnknownClient
    case Some(id) => match FullNameOf(users, id) case Some(name) => name case None => UnknownClient
  }

  /** completion_date: NULL for the literal text "null", else the date at midnight. */
  function CompletionOf(completionDate: string): Option<string>
  {
    if completionDate == "null" then None else Some(completionDate + Midnight)
  }

  /** The row the INSERT writes; None where requestID is no storable id. */
  function RequestOfRow(row: CsvRow, users: seq<User>, now: string): Option<Request>
    requires RequestColumnsIn(row)
  {
    match RowId(row["requestID"])
    case None => None
    case Some(id) =>
      Some(Request(id, row["startDate"] + Midnight, row["homeTechType"], row["homeTechModel"],
                   row["problemDescryption"], ClientNameOf(users, row["clientID"]), PlaceholderPhone,
                   row["requestStatus"], None, None, CompletionOf(row["completionDate"]), Some(now)))
  }

  /** One pass of the requests loop. */
  function ImportRequestRow(t: Tables, row: CsvRow, now: string): Outcome
  {
    if !RequestColumnsIn(row) then Outcome(t, false)
    else match RequestOfRow(row, t.users, now)
      case None => Outcome(t, false)
      case Some(r) => Outcome(InsertRequestOrIgnore(t, r), true)
  }

  function RequestStep(now: string): (Tables, CsvRow) -> Outcome
  {
    (t: Tables, row: CsvRow) => ImportRequestRow(t, row, now)
  }

  // ---------------------------------------------------------------------
  // import_comments

  predicate CommentColumnsIn(row: CsvRow)
  {
    "commentID" in row && "message" in row && "masterID" in row
  }

  /** SELECT id FROM requests WHERE id = requestID finds nothing. */
  predicate Orphan(t: Tables, row: CsvRow)
    requires "requestID" in row
  {
    match ParseInt(row["requestID"]) case Some(id) => !HasRequest(t.requests, id) case None => true
  }

  /** The row the INSERT writes; None where commentID is no storable id. */
  function CommentOfRow(row: CsvRow, requestId: int, now: string): Option<Comment>
    requires CommentColumnsIn(row)
  {
    match RowId(row["commentID"])
    case None => None
    case Some(id) => Some(Comment(id, requestId, row["message"], None, now, "master_" + row["masterID"]))
  }

  /** One pass of the comments loop: a comment without its request is
      skipped. */
  function ImportCommentRow(t: Tables, row: CsvRow, now: string): Outcome
  {
    if "requestID" !in row then Outcome(t, false)
    else if Orphan(t, row) then Outcome(t, true)
    else if !CommentColumnsIn(row) then Outcome(t, false)
    else match CommentOfRow(row, ParseInt(row["requestID"]).value, now)
      case None => Outcome(t, false)
      case Some(c) =>
        match InsertCommentOrIgnore(t, c) case None => Outcome(t, false) case Some(t') => Outcome(t', true)
  }

  function CommentStep(now: string): (Tables, CsvRow) -> Outcome
  {
    (t: Tables, row: CsvRow) => ImportCommentRow(t, row, now)
  }

  // ---------------------------------------------------------------------
  // The three loops

  /** import_users; false where it raises. */
  method ImportUsers(db: Database, rows: seq<CsvRow>, hash: string -> string) returns (ok: bool)
    requires db.Valid()
    modifies db
    ensures db.Valid()
    ensures Outcome(db.Snapshot(), ok) == Imported(old(db.Snapshot()), rows, UserStep(hash))
  {
    ghost var t0 := db.Snapshot();
    var i := 0;
    while i < |rows|
      invariant 0 <= i <= |rows|
      invariant db.Valid()
      invariant Imported(t0, rows[..i], UserStep(hash)) == Outcome(db.Snapshot(), true)
    {
      var row := rows[i];
      ImportedStep(t0, rows, i, UserStep(hash));
      if !UserColumnsIn(row) {
        ImportedPrefixFails(t0, rows, i + 1, UserStep(hash));
        return false;
      }
      var username, password := Strip(row["login"]), Strip(row["password"]);
      var fullName, role := Strip(row["fio"]), RoleOf(row["type"]);
      var inserted := db.InsertUser(username, hash(password), role, fullName);
      if !inserted {
        ImportedPrefixFails(t0, rows, i + 1, UserStep(hash));
        return false;
      }
      i := i + 1;
    }
    assert rows[..i] == rows;
    return true;
  }

  /** import_requests, every row stamped with the same now. */
  method ImportRequests(db: Database, rows: seq<CsvRow>, now: string) returns (ok: bool)
    requires db.Valid()
    modifies db
    ensures db.Valid()
    ensures Outcome(db.Snapshot(), ok) == Imported(old(db.Snapshot()), rows, RequestStep(now))
  {
    ghost var t0 := db.Snapshot();
    var i := 0;
    while i < |rows|
      invariant 0 <= i <= |rows|
      invariant db.Valid()
      invariant Imported(t0, rows[..i], RequestStep(now)) == Outcome(db.Snapshot(), true)
    {
      var row := rows[i];
      ImportedStep(t0, rows, i, RequestStep(now));
      if !RequestColumnsIn(row) {
        ImportedPrefixFails(t0, rows, i + 1, RequestStep(now));
        return false;
      }
      var clientName := ClientNameOf(db.users, row["clientID"]);
      var id := RowId(row["requestID"]);
      if id.None? {
        ImportedPrefixFails(t0, rows, i + 1, RequestStep(now));
        return false;
      }
      var request := Request(id.value, row["startDate"] + Midnight, row["homeTechType"], row["homeTechModel"],
                             row["problemDescryption"], clientName, PlaceholderPhone, row["requestStatus"],
                             None, None, CompletionOf(row["completionDate"]), Some(now));
      db.InsertRequest(request);
      i := i + 1;
    }
    assert rows[..i] == rows;
    return true;
  }

  /** One pass of the import_comments loop body against the database. */
  method StoreCommentRow(db: Database, row: CsvRow, now: string) returns (ok: bool)
    requires db.Valid()
    modifies db
    ensures db.Valid()
    ensures Outcome(db.Snapshot(), ok) == ImportCommentRow(old(db.Snapshot()), row, now)
  {
    if "requestID" !in row {
      return false;
    }
    var requestId := ParseInt(row["requestID"]);
    if requestId.None? || !HasRequest(db.requests, requestId.value) {
      return true;
    }
    if !CommentColumnsIn(row) {
      return false;
    }
    var id := RowId(row["commentID"]);
    if id.None? {
      return false;
    }
    var comment := Comment(id.value, requestId.value, row["message"], None, now, "master_" + row["masterID"]);
    ok := db.InsertComment(comment);
  }

  /** import_comments, every row stamped with the same now. */
  method ImportComments(db: Database, rows: seq<CsvRow>, now: string) returns (ok: bool)
    requires db.Valid()
    modifies db
    ensures db.Valid()
    ensures Outcome(db.Snapshot(), ok) == Imported(old(db.Snapshot()), rows, CommentStep(now))
  {
    ghost var t0 := db.Snapshot();
    var i := 0;
    while i < |rows|
      invariant 0 <= i <= |rows|
      invariant db.Valid()
      invariant Imported(t0, rows[..i], CommentStep(now)) == Outcome(db.Snapshot(), true)
    {
      ImportedStep(t0, rows, i, CommentStep(now));
      var stored := StoreCommentRow(db, rows[i], now);
      if !stored {
        ImportedPrefixFails(t0, rows, i + 1, CommentStep(now));
        return false;
      }
      i := i + 1;
    }
    assert rows[..i] == rows;
    return true;
  }

  lemma ImportedStep(t: Tables, rows: seq<CsvRow>, i: nat, step: (Tables, CsvRow) -> Outcome)
    requires i < |rows|
    ensures Imported(t, rows[..i + 1], step) ==
      var before := Imported(t, rows[..i], step);
      if before.ok then step(before.tables, rows[i]) else before
  {
    assert rows[..i + 1][..i] == rows[..i];
  }

  /** Once a row fails, the rest of the file is not read. */
  lemma {:induction false} ImportedPrefixFails(t: Tables, rows: seq<CsvRow>, i: nat,
                                               step: (Tables, CsvRow) -> Outcome)
    requires i <= |rows| && !Imported(t, rows[..i], step).ok
    ensures Imported(t, rows, step) == Imported(t, rows[..i], step)
    decreases |rows| - i
  {
    if i < |rows| {
      ImportedStep(t, rows, i, step);
      ImportedPrefixFails(t, rows, i + 1, step);
    } else {
      assert rows[..i] == rows;
    }
  }

  // ---------------------------------------------------------------------
  // Re-importing the same file

  /** Every row is done once the import succeeds, when a step that
      succeeds leaves its row done and keeps every done row done. */
  lemma {:induction false} ImportedAllDone(t: Tables, rows: seq<CsvRow>, step: (Tables, CsvRow) -> Outcome,
                                           done: (Tables, CsvRow) -> bool)
    requires forall t0, row :: step(t0, row).ok ==> done(step(t0, row).tables, row)
    requires forall t0, row, row' :: done(t0, row) && step(t0, row').ok ==> done(step(t0, row').tables, row)
    requires Imported(t, rows, step).ok
    ensures forall k :: 0 <= k < |rows| ==> done(Imported(t, rows, step).tables, rows[k])
  {
    if rows != [] {
      var init, last := rows[..|rows| - 1], rows[|rows| - 1];
      ImportedAllDone(t, init, step, done);
      var before := Imported(t, init, step).tables;
      forall k | 0 <= k < |rows| ensures done(Imported(t, rows, step).tables, rows[k]) {
        if k < |init| {
          assert init[k] == rows[k];
        }
      }
    }
  }

  /** Rows that are all done change nothing, when a done row's step is
      ignored. */
  lemma {:induction false} ImportedNothingNew(t: Tables, rows: seq<CsvRow>, step: (Tables, CsvRow) -> Outcome,
                                              done: (Tables, CsvRow) -> bool)
    requires forall k :: 0 <= k < |rows| ==> done(t, rows[k])
    requires forall t0, row :: done(t0, row) ==> step(t0, row) == Outcome(t0, true)
    ensures Imported(t, rows, step) == Outcome(t, true)
  {
    if rows != [] {
      var init := rows[..|rows| - 1];
      forall k | 0 <= k < |init| ensures done(t, init[k]) {
        assert init[k] == rows[k];
      }
      ImportedNothingNew(t, init, step, done);
    }
  }

  /** A user row is done once its username is taken. */
  predicate UserDone(t: Tables, row: CsvRow)
  {
    UserColumnsIn(row) && HasUsername(t.users, Strip(row["login"]))
  }

  lemma HasUsernameKept(users: seq<User>, users': seq<User>, name: string)
    requires HasUsername(users, name) && |users| <= |users'| && users'[..|users|] == users
    ensures HasUsername(users', name)
  {
    var i :| 0 <= i < |users| && users[i].username == name;
    assert users'[i] == users[i];
  }

  /** Importing the same users file again, after an import that succeeded,
      changes nothing: every username is taken by then. */
  lemma ReimportUsers(t: Tables, rows: seq<CsvRow>, hash: string -> string, hash': string -> string)
    requires Imported(t, rows, UserStep(hash)).ok
    ensures var t1 := Imported(t, rows, UserStep(hash)).tables;
      Imported(t1, rows, UserStep(hash')) == Outcome(t1, true)
  {
    var step := UserStep(hash);
    forall t0, row | step(t0, row).ok ensures UserDone(step(t0, row).tables, row) {
      UserRowStored(t0, row, hash);
    }
    forall t0, row, row' | UserDone(t0, row) && step(t0, row').ok
      ensures UserDone(step(t0, row').tables, row)
    {
      UserRowStored(t0, row', hash);
      HasUsernameKept(t0.users, step(t0, row').tables.users, Strip(row["login"]));
    }
    ImportedAllDone(t, rows, step, UserDone);
    forall t0, row | UserDone(t0, row) ensures UserStep(hash')(t0, row) == Outcome(t0, true) {
      UserRowStored(t0, row, hash');
    }
    ImportedNothingNew(Imported(t, rows, step).tables, rows, UserStep(hash'), UserDone);
  }

  /** A request row is done once a request holds its id. */
  predicate RequestDone(t: Tables, row: CsvRow)
  {
    RequestColumnsIn(row) && RowId(row["requestID"]).Some? && HasRequest(t.requests, RowId(row["requestID"]).value)
  }

  lemma HasRequestKept(requests: seq<Request>, requests': seq<Request>, id: int)
    requires HasRequest(requests, id) && |requests| <= |requests'| && requests'[..|requests|] == requests
    ensures HasRequest(requests', id)
  {
    var i :| 0 <= i < |requests| && requests[i].id == id;
    assert requests'[i] == requests[i];
  }

  /** Importing the same requests file again, at any later time, changes
      nothing: every id is taken by then. */
  lemma ReimportRequests(t: Tables, rows: seq<CsvRow>, now: string, now': string)
    requires Imported(t, rows, RequestStep(now)).ok
    ensures var t1 := Imported(t, rows, RequestStep(now)).tables;
      Imported(t1, rows, RequestStep(now')) == Outcome(t1, true)
  {
    var step := RequestStep(now);
    forall t0, row | step(t0, row).ok ensures RequestDone(step(t0, row).tables, row) {
      RequestRowStored(t0, row, now);
    }
    forall t0, row, row' | RequestDone(t0, row) && step(t0, row').ok
      ensures RequestDone(step(t0, row').tables, row)
    {
      RequestRowStored(t0, row', now);
      HasRequestKept(t0.requests, step(t0, row').tables.requests, RowId(row["requestID"]).value);
    }
    ImportedAllDone(t, rows, step, RequestDone);
    forall t0, row | RequestDone(t0, row) ensures RequestStep(now')(t0, row) == Outcome(t0, true) {
      RequestRowStored(t0, row, now');
    }
    ImportedNothingNew(Imported(t, rows, step).tables, rows, RequestStep(now'), RequestDone);
  }

  /** A comment row is done once it is an orphan or a comment holds its id. */
  predicate CommentDone(t: Tables, row: CsvRow)
  {
    "requestID" in row &&
    (Orphan(t, row) ||
     (CommentColumnsIn(row) && RowId(row["commentID"]).Some? && HasComment(t.comments, RowId(row["commentID"]).value)))
  }

  lemma HasCommentKept(comments: seq<Comment>, comments': seq<Comment>, id: int)
    requires HasComment(comments, id) && |comments| <= |comments'| && comments'[..|comments|] == comments
    ensures HasComment(comments', id)
  {
    var i :| 0 <= i < |comments| && comments[i].id == id;
    assert comments'[i] == comments[i];
  }

  /** Importing the same comments file again, at any later time, changes
      nothing: every comment id is taken by then, and the orphans are
      still orphans. */
  lemma ReimportComments(t: Tables, rows: seq<CsvRow>, now: string, now': string)
    requires Imported(t, rows, CommentStep(now)).ok
    ensures var t1 := Imported(t, rows, CommentStep(now)).tables;
      Imported(t1, rows, CommentStep(now')) == Outcome(t1, true)
  {
    var step := CommentStep(now);
    forall t0, row | step(t0, row).ok ensures CommentDone(step(t0, row).tables, row) {
      CommentRowStored(t0, row, now);
    }
    forall t0, row, row' | CommentDone(t0, row) && step(t0, row').ok
      ensures CommentDone(step(t0, row').tables, row)
    {
      CommentRowStored(t0, row', now);
      var t1 := step(t0, row').tables;
      if !Orphan(t0, row) {
        HasCommentKept(t0.comments, t1.comments, RowId(row["commentID"]).value);
      }
    }
    ImportedAllDone(t, rows, step, CommentDone);
    forall t0, row | CommentDone(t0, row) ensures CommentStep(now')(t0, row) == Outcome(t0, true) {
      CommentRowStored(t0, row, now');
    }
    ImportedNothingNew(Imported(t, rows, step).tables, rows, CommentStep(now'), CommentDone);
  }

  // ---------------------------------------------------------------------
  // One row

  /** A users row: ignored when its username is taken, else appended with
      the next id, the hashed password and the mapped role; nothing else
      changes. The import raises only for a missing column or a full
      table. */
  lemma UserRowStored(t: Tables, row: CsvRow, hash: string -> string)
    ensures var o := ImportUserRow(t, row, hash);
      (!o.ok ==> o.tables == t) &&
      (o.ok <==> UserColumnsIn(row) && (HasUsername(t.users, Strip(row["login"])) || t.userSeq < MaxRowId)) &&
      (o.ok ==> o.tables.requests == t.requests && o.tables.comments == t.comments &&
                HasUsername(o.tables.users, Strip(row["login"])) &&
                |t.users| <= |o.tables.users| && o.tables.users[..|t.users|] == t.users) &&
      (o.ok && HasUsername(t.users, Strip(row["login"])) ==> o.tables == t) &&
      (o.ok && !HasUsername(t.users, Strip(row["login"])) ==>
        o.tables.users == t.users + [User(t.userSeq + 1, Strip(row["login"]), hash(Strip(row["password"])),
                                          RoleOf(row["type"]), Strip(row["fio"]))])
  {
    if UserColumnsIn(row) {
      UserInserted(t, Strip(row["login"]), hash(Strip(row["password"])), RoleOf(row["type"]), Strip(row["fio"]));
    }
  }

  lemma UserInserted(t: Tables, login: string, passwordHash: string, role: string, fullName: string)
    ensures var r := InsertUserOrIgnore(t, login, passwordHash, role, fullName);
      (r.None? <==> !HasUsername(t.users, login) && t.userSeq >= MaxRowId) &&
      (r.Some? ==> r.value.requests == t.requests && r.value.comments == t.comments &&
                   HasUsername(r.value.users, login) &&
                   |t.users| <= |r.value.users| && r.value.users[..|t.users|] == t.users) &&
      (HasUsername(t.users, login) ==> r == Some(t)) &&
      (r.Some? && !HasUsername(t.users, login) ==>
        r.value.users == t.users + [User(t.userSeq + 1, login, passwordHash, role, fullName)])
  {
    if !HasUsername(t.users, login) && t.userSeq < MaxRowId {
      var u := User(t.userSeq + 1, login, passwordHash, role, fullName);
      var users' := t.users + [u];
      assert users'[|t.users|] == u;
      assert users'[..|t.users|] == t.users;
    }
  }

  /** A requests row: ignored when its id is taken, else appended; the
      other tables never change. The import raises only for a missing
      column or an id SQLite cannot store. */
  lemma RequestRowStored(t: Tables, row: CsvRow, now: string)
    ensures var o := ImportRequestRow(t, row, now);
      (!o.ok ==> o.tables == t) &&
      (o.ok <==> RequestColumnsIn(row) && RowId(row["requestID"]).Some?) &&
      (o.ok ==> o.tables.users == t.users && o.tables.comments == t.comments &&
                HasRequest(o.tables.requests, RowId(row["requestID"]).value) &&
                |t.requests| <= |o.tables.requests| && o.tables.requests[..|t.requests|] == t.requests) &&
      (o.ok && HasRequest(t.requests, RowId(row["requestID"]).value) ==> o.tables == t) &&
      (o.ok && !HasRequest(t.requests, RowId(row["requestID"]).value) ==>
        o.tables.requests == t.requests + [RequestOfRow(row, t.users, now).value])
  {
    if RequestColumnsIn(row) && RowId(row["requestID"]).Some? {
      var r := RequestOfRow(row, t.users, now).value;
      if !HasRequest(t.requests, r.id) {
        var requests' := t.requests + [r];
        assert requests'[|t.requests|] == r;
        assert requests'[..|t.requests|] == t.requests;
      }
    }
  }

  /** A comments row: skipped when no request has its requestID; else
      ignored when its id is taken, else appended with author
      "master_" + masterID and no parts. The foreign key never fails: the
      import raises only for a missing column or an id SQLite cannot store. */
  lemma CommentRowStored(t: Tables, row: CsvRow, now: string)
    ensures var o := ImportCommentRow(t, row, now);
      (!o.ok ==> o.tables == t) &&
      (o.ok <==> "requestID" in row &&
                 (Orphan(t, row) || (CommentColumnsIn(row) && RowId(row["commentID"]).Some?))) &&
      (o.ok ==> o.tables.users == t.users && o.tables.requests == t.requests &&
                |t.comments| <= |o.tables.comments| && o.tables.comments[..|t.comments|] == t.comments) &&
      (o.ok && Orphan(t, row) ==> o.tables == t) &&
      (o.ok && !Orphan(t, row) ==> HasComment(o.tables.comments, RowId(row["commentID"]).value)) &&
      (o.ok && !Orphan(t, row) && HasComment(t.comments, RowId(row["commentID"]).value) ==> o.tables == t) &&
      (o.ok && !Orphan(t, row) && !HasComment(t.comments, RowId(row["commentID"]).value) ==>
        o.tables.comments == t.comments +
          [Comment(RowId(row["commentID"]).value, ParseInt(row["requestID"]).value, row["message"], None, now,
                   "master_" + row["masterID"])])
  {
    if "requestID" in row && !Orphan(t, row) && CommentColumnsIn(row) && RowId(row["commentID"]).Some? {
      var c := CommentOfRow(row, ParseInt(row["requestID"]).value, now).value;
      if !HasComment(t.comments, c.id) {
        var comments' := t.comments + [c];
        assert comments'[|t.comments|] == c;
        assert comments'[..|t.comments|] == t.comments;
      }
    }
  }

  // ---------------------------------------------------------------------
  // What the imported rows hold

  /** The role of a type column is its mapped name however it is padded
      and capitalised, and "client" for any name outside the table. */
  lemma RoleOfPadded(pre: string, userType: string, post: string)
    requires AllSpace(pre) && AllSpace(post)
    requires userType != [] && !IsSpace(userType[0]) && !IsSpace(userType[|userType| - 1])
    ensures Lower(userType) in RoleMap ==> RoleOf(pre + userType + post) == RoleMap[Lower(userType)]
    ensures Lower(userType) !in RoleMap ==> RoleOf(pre + userType + post) == DefaultRole
  {
    StripPadded(pre, userType, post);
  }

  /** With distinct user ids, the client name is the full name of the user
      whose id the clientID column holds. */
  lemma ClientNameOfUser(users: seq<User>, sq: int, clientId: string, i: nat)
    requires UserKeys(users, sq) && i < |users| && ParseInt(clientId) == Some(users[i].id)
    ensures ClientNameOf(users, clientId) == users[i].fullName
  {
    var name := ClientNameOf(users, clientId);
    var j :| 0 <= j < |users| && ParseInt(clientId) == Some(users[j].id) && users[j].fullName == name;
    assert users[j].id == users[i].id;
    if i != j {
      assert false;
    }
  }

  /** A date column padded with the time of day is a timestamp exactly when
      the column is a date, and then it is that date at midnight. */
  lemma MidnightStamp(s: string)
    ensures ParseDateTime(s + Midnight) ==
      match ParseDate(s) case Some(d) => Some(DateTime(d, 0, 0, 0)) case None => None
  {
    match ParseDate(s)
    case Some(d) =>
      var t := DateTime(d, 0, 0, 0);
      assert FormatDateTime(t) == s + Midnight by {
        assert Digits(0, 2) == "00";
      }
      ParseFormatDateTime(t);
    case None =>
      if ParseDateTime(s + Midnight).Some? {
        var t := ParseDateTime(s + Midnight).value;
        assert (s + Midnight)[..10] == s;
        ParseFormatDate(t.date);
        assert false;
      }
  }

  /** The request a CSV row becomes: its explicit id, the status verbatim,
      the placeholder phone, no master and no deadline; the dates are
      timestamps at midnight exactly when the columns hold dates, and the
      literal "null" completion date is NULL. */
  lemma ImportedRequestFields(row: CsvRow, users: seq<User>, now: string)
    requires RequestColumnsIn(row) && RowId(row["requestID"]).Some?
    ensures var r := RequestOfRow(row, users, now).value;
      ParseInt(row["requestID"]) == Some(r.id) && r.status == row["requestStatus"] &&
      r.clientPhone == PlaceholderPhone && r.masterName.None? && r.deadline.None? && r.updatedDate == Some(now) &&
      ParseDateTime(r.createdDate) ==
        (match ParseDate(row["startDate"]) case Some(d) => Some(DateTime(d, 0, 0, 0)) case None => None) &&
      (r.completionDate.None? <==> row["completionDate"] == "null") &&
      (r.completionDate.Some? ==>
         ParseDateTime(r.completionDate.value) ==
         (match ParseDate(row["completionDate"]) case Some(d) => Some(DateTime(d, 0, 0, 0)) case None => None))
  {
    MidnightStamp(row["startDate"]);
    MidnightStamp(row["completionDate"]);
  }

  /** Imported comments order no parts: the parts cost of the metrics is
      unchanged by an import of comments. */
  lemma {:induction false} ImportedCommentsCostNothing(t: Tables, rows: seq<CsvRow>, now: string)
    ensures Algorithms.PartsLength(Imported(t, rows, CommentStep(now)).tables.comments) ==
            Algorithms.PartsLength(t.comments)
  {
    if rows != [] {
      var init := rows[..|rows| - 1];
      ImportedCommentsCostNothing(t, init, now);
      var before := Imported(t, init, CommentStep(now));
      if before.ok {
        var o := ImportCommentRow(before.tables, rows[|rows| - 1], now);
        CommentRowStored(before.tables, rows[|rows| - 1], now);
        if o.tables != before.tables {
          var added := o.tables.comments[|before.tables.comments|..];
          assert o.tables.comments == before.tables.comments + added;
          Algorithms.PartsLengthAppend(before.tables.comments, added);
          assert added == [added[0]];
          assert added[..0] == [];
        }
      }
    }
  }
}
