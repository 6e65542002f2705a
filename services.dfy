/**
 * The user service: create, point lookups with lazy timestamp repair, the
 * listing with bulk repair, filter, newest-first order and in-memory paging,
 * patch update, soft delete and hard delete, over one `users` table.
 */
module Services {
  import opened Wrappers
  import opened Text
  import opened Models
  import opened Schemas

  // ---------------------------------------------------------------------------
  // Classifying a failed commit
  // ---------------------------------------------------------------------------

  /** The write whose commit failed. */
  datatype Operation = Creating | Updating

  /** How the service reports a commit that broke an integrity constraint. */
  datatype Failure = UsernameExists | EmailExists | CreationFailed | UpdateFailed {

    /** The error detail the caller receives. */
    function Detail(): string
    {
      match this
      case UsernameExists => "Username already exists"
      case EmailExists => "Email already exists"
      case CreationFailed => "User creation failed"
      case UpdateFailed => "User update failed"
    }
  }

  /**
   * The detail of a failure names the field whose value is taken, and says
   * "already exists" exactly for the two conflicts.
   */
  lemma DetailNamesField(f: Failure)
    ensures Contains(f.Detail(), "Username") <==> f == UsernameExists
    ensures Contains(f.Detail(), "Email") <==> f == EmailExists
    ensures Contains(f.Detail(), "already exists") <==> f == UsernameExists || f == EmailExists
  {
    var d := f.Detail();
    match f
    case UsernameExists =>
      ConflictDetailNamesField(d, "Username", "Email", 0);
    case EmailExists =>
      ConflictDetailNamesField(d, "Email", "Username", 4);
    case CreationFailed =>
      GenericDetailNamesNoField(d);
    case UpdateFailed =>
      GenericDetailNamesNoField(d);
  }

  /**
   * The detail of a conflict names its own field and not the other one: it is
   * the field's name followed by " already exists", which lacks the other
   * name's character `other[j]`.
   */
  lemma ConflictDetailNamesField(d: string, field: string, other: string, j: nat)
    requires d == field + " already exists" && j < |other| && other[j] !in d
    ensures Contains(d, field) && Contains(d, "already exists") && !Contains(d, other)
  {
    assert OccursAt(d, field, 0);
    assert OccursAt(d, "already exists", |field| + 1);
    MissingCharNotContained(d, other, j);
  }

  /** The details of the generic failures name no field and no conflict. */
  lemma GenericDetailNamesNoField(d: string)
    requires d == "User creation failed" || d == "User update failed"
    ensures !Contains(d, "Username") && !Contains(d, "Email") && !Contains(d, "already exists")
  {
    assert 'm' !in d && 'E' !in d && 'x' !in d;
    MissingCharNotContained(d, "Username", 6);
    MissingCharNotContained(d, "Email", 0);
    MissingCharNotContained(d, "already exists", 9);
  }

  /**
   * Classifies an integrity error by its message: a message that mentions
   * "username" is a username conflict, whatever else it mentions; otherwise one
   * that mentions "email" is an email conflict; anything else is a generic
   * failure of the operation.
   */
  function Classify(message: string, op: Operation): (f: Failure)
    ensures f == UsernameExists <==> Contains(message, "username")
    ensures f == EmailExists <==> !Contains(message, "username") && Contains(message, "email")
    ensures f != UsernameExists && f != EmailExists ==>
      f == (if op == Creating then CreationFailed else UpdateFailed)
  {
    if Contains(message, "username") then UsernameExists
    else if Contains(message, "email") then EmailExists
    else if op == Creating then CreationFailed
    else UpdateFailed
  }

  /** The conflict that a broken unique key is reported as. */
  function KeyConflict(key: UniqueKey): Failure
  {
    match key
    case UsernameKey => UsernameExists
    case EmailKey => EmailExists
  }

  /** Classifying the storage's report of a broken unique key names the right field, on create and on update. */
  lemma ClassifyKey(key: UniqueKey, op: Operation)
    ensures Classify(key.Name(), op) == KeyConflict(key)
  {
    assert OccursAt("users.ix_users_username", "username", 15);
    assert OccursAt("users.email", "email", 6);
    assert "username"[4] == 'n';
    MissingCharNotContained("users.email", "username", 4);
  }

  // ---------------------------------------------------------------------------
  // The error text as the service receives it
  // ---------------------------------------------------------------------------

  /** The driver's report of a duplicate entry: the offending value and the name of the key. */
  function DriverMessage(key: UniqueKey, value: string): (m: string)
    ensures Contains(m, value) && Contains(m, key.Name())
  {
    var head := "(pymysql.err.IntegrityError) (1062, \"Duplicate entry '";
    var mid := "' for key '";
    var tail := "'\")";
    assert OccursAt(value, value, 0);
    assert OccursAt(key.Name(), key.Name(), 0);
    ContainsInPart(head, value, mid + key.Name() + tail, value);
    assert head + value + (mid + key.Name() + tail) == head + value + mid + key.Name() + tail;
    ContainsInPart(head + value + mid, key.Name(), tail, key.Name());
    head + value + mid + key.Name() + tail
  }

  /**
   * `str(e)` of the IntegrityError: the driver's report, then the statement
   * that failed. It contains the name of the broken key, the offending value
   * and the statement's text.
   */
  function ErrorText(key: UniqueKey, value: string, statement: string): (e: string)
    ensures Contains(e, key.Name()) && Contains(e, value) && Contains(e, statement)
  {
    var message := DriverMessage(key, value);
    var sql := "\n[SQL: " + statement + "]";
    ContainsSelf(statement);
    ContainsRight("\n[SQL: ", statement, statement);
    ContainsLeft("\n[SQL: " + statement, "]", statement);
    ContainsLeft(message, sql, key.Name());
    ContainsLeft(message, sql, value);
    ContainsRight(message, sql, statement);
    message + sql
  }

  /** Column names or assignments separated by commas. */
  function JoinColumns(cols: seq<string>): string
  {
    if |cols| == 0 then ""
    else if |cols| == 1 then cols[0]
    else cols[0] + ", " + JoinColumns(cols[1..])
  }

  /** What one of the columns contains, the joined list contains. */
  lemma {:induction false} ContainsJoinMember(cols: seq<string>, x: string, t: string)
    requires x in cols && Contains(x, t)
    ensures Contains(JoinColumns(cols), t)
    decreases |cols|
  {
    if |cols| == 1 {
      assert JoinColumns(cols) == x;
    } else if cols[0] == x {
      ContainsInPart("", x, ", " + JoinColumns(cols[1..]), t);
      assert "" + x + (", " + JoinColumns(cols[1..])) == JoinColumns(cols);
    } else {
      ContainsJoinMember(cols[1..], x, t);
      ContainsInPart(cols[0] + ", ", JoinColumns(cols[1..]), "", t);
      assert cols[0] + ", " + JoinColumns(cols[1..]) + "" == JoinColumns(cols);
    }
  }

  /** The columns of the `users` table. */
  datatype Column = Id | Username | Email | FirstName | LastName | Role | CreatedAt | UpdatedAt | Active {

    /** The column's name in SQL. */
    function Name(): string {
      match this
      case Id => "id"
      case Username => "username"
      case Email => "email"
      case FirstName => "first_name"
      case LastName => "last_name"
      case Role => "role"
      case CreatedAt => "created_at"
      case UpdatedAt => "updated_at"
      case Active => "active"
    }
  }

  /** The names of some columns, each followed by `suffix`. */
  function Names(cols: seq<Column>, suffix: string): (r: seq<string>)
    ensures |r| == |cols|
    ensures forall i :: 0 <= i < |cols| ==> r[i] == cols[i].Name() + suffix
  {
    if cols == [] then [] else [cols[0].Name() + suffix] + Names(cols[1..], suffix)
  }

  /** The columns `create_user` inserts: every column but the id, in table order. */
  const InsertColumns: seq<Column> :=
    [Column.Username, Column.Email, Column.FirstName, Column.LastName, Column.Role, CreatedAt, UpdatedAt, Column.Active]

  /** The INSERT that `create_user` flushes. */
  const InsertStatement: string :=
    "INSERT INTO users (" + JoinColumns(Names(InsertColumns, "")) + ") VALUES (%s, %s, %s, %s, %s, %s, %s, %s)"

  /** The text of the INSERT contains the name of every column it inserts. */
  lemma InsertStatementColumns()
    ensures forall c :: c in InsertColumns ==> Contains(InsertStatement, c.Name())
  {
    var names := Names(InsertColumns, "");
    var text := JoinColumns(names);
    assert InsertStatement == "INSERT INTO users (" + text + ") VALUES (%s, %s, %s, %s, %s, %s, %s, %s)";
    forall c | c in InsertColumns
      ensures Contains(InsertStatement, c.Name())
    {
      InsertColumnNamed(names, c);
      ContainsInPart("INSERT INTO users (", text, ") VALUES (%s, %s, %s, %s, %s, %s, %s, %s)", c.Name());
    }
  }

  /** The INSERT names every column but the id, which the storage assigns. */
  lemma InsertColumnsAllButId()
    ensures forall c: Column :: c in InsertColumns <==> c != Id
  {
    forall c: Column
      ensures c in InsertColumns <==> c != Id
    {
      match c
      case Id => assert forall k :: 0 <= k < |InsertColumns| ==> InsertColumns[k] != Id;
      case Username => assert InsertColumns[0] == c;
      case Email => assert InsertColumns[1] == c;
      case FirstName => assert InsertColumns[2] == c;
      case LastName => assert InsertColumns[3] == c;
      case Role => assert InsertColumns[4] == c;
      case CreatedAt => assert InsertColumns[5] == c;
      case UpdatedAt => assert InsertColumns[6] == c;
      case Active => assert InsertColumns[7] == c;
    }
  }

  /** The joined names of some columns contain the name of each of them. */
  lemma InsertColumnNamed(names: seq<string>, c: Column)
    requires c in InsertColumns && names == Names(InsertColumns, "")
    ensures Contains(JoinColumns(names), c.Name())
  {
    var k :| 0 <= k < |InsertColumns| && InsertColumns[k] == c;
    assert names[k] == c.Name() + "" == c.Name();
    ContainsSelf(c.Name());
    ContainsJoinMember(names, c.Name(), c.Name());
  }

  /** Whether updating `before` into `after` changes the value of column `c`. */
  predicate Changed(c: Column, before: User, after: User)
  {
    match c
    case Id => before.id != after.id
    case Username => before.username != after.username
    case Email => before.email != after.email
    case FirstName => before.firstName != after.firstName
    case LastName => before.lastName != after.lastName
    case Role => before.role != after.role
    case CreatedAt => before.createdAt != after.createdAt
    case UpdatedAt => before.updatedAt != after.updatedAt
    case Active => before.active != after.active
  }

  /** The column `c` when its value changed, nothing otherwise. */
  function IfChanged(c: Column, before: User, after: User): seq<Column>
  {
    if Changed(c, before, after) then [c] else []
  }

  /** The columns the UPDATE below assigns, in table order. */
  function UpdateColumns(before: User, after: User): seq<Column>
  {
    IfChanged(Column.Username, before, after) + IfChanged(Column.Email, before, after) +
    IfChanged(Column.FirstName, before, after) + IfChanged(Column.LastName, before, after) +
    IfChanged(Column.Role, before, after) + IfChanged(UpdatedAt, before, after) +
    IfChanged(Column.Active, before, after)
  }

  /** The UPDATE that `update_user` flushes for the loaded row `before` turned into `after`. */
  function UpdateStatement(before: User, after: User): string
  {
    "UPDATE users SET " + JoinColumns(Names(UpdateColumns(before, after), "=%s")) + " WHERE users.id = %s"
  }

  /**
   * The UPDATE assigns a column exactly when its value changed, leaving out the
   * id and `created_at`, which an update does not write.
   */
  lemma UpdateColumnsChanged(before: User, after: User)
    ensures forall c :: c in UpdateColumns(before, after) <==> Changed(c, before, after) && c != Id && c != CreatedAt
  {
  }

  /** The text of the UPDATE names every column it assigns. */
  lemma UpdateStatementColumns(before: User, after: User)
    ensures forall c :: c in UpdateColumns(before, after) ==> Contains(UpdateStatement(before, after), c.Name() + "=%s")
  {
    var cols := UpdateColumns(before, after);
    var names := Names(cols, "=%s");
    forall c | c in cols
      ensures Contains(UpdateStatement(before, after), c.Name() + "=%s")
    {
      var k :| 0 <= k < |cols| && cols[k] == c;
      assert names[k] == c.Name() + "=%s";
      ContainsSelf(c.Name() + "=%s");
      ContainsJoinMember(names, c.Name() + "=%s", c.Name() + "=%s");
      ContainsInPart("UPDATE users SET ", JoinColumns(names), " WHERE users.id = %s", c.Name() + "=%s");
    }
  }

  /**
   * As written, the service tests the whole error text, and the INSERT names
   * the `username` column: every failed create is classified as a username
   * conflict, whichever key broke and whatever the value.
   */
  lemma InsertErrorSaysUsername(key: UniqueKey, value: string)
    ensures Classify(ErrorText(key, value, InsertStatement), Creating) == UsernameExists
  {
    InsertStatementColumns();
    assert Column.Username in InsertColumns;
    ContainsTrans(ErrorText(key, value, InsertStatement), InsertStatement, "username");
  }

  /**
   * Likewise every failed update that changes the username is classified as a
   * username conflict, whichever key broke.
   */
  lemma UpdateErrorSaysUsername(key: UniqueKey, value: string, before: User, after: User)
    requires before.username != after.username
    ensures Classify(ErrorText(key, value, UpdateStatement(before, after)), Updating) == UsernameExists
  {
    UpdateColumnsChanged(before, after);
    UpdateStatementColumns(before, after);
    var stmt := UpdateStatement(before, after);
    assert Changed(Column.Username, before, after);
    assert Column.Username.Name() + "=%s" == "username=%s";
    assert OccursAt("username=%s", "username", 0);
    ContainsTrans(stmt, "username=%s", "username");
    ContainsTrans(ErrorText(key, value, stmt), stmt, "username");
  }

  /**
   * The counterexample: a create whose email is taken, by a username that is
   * free, is answered "Username already exists" instead of "Email already exists".
   */
  lemma EmailClashReportedAsUsername()
    ensures Classify(ErrorText(EmailKey, "john@example.com", InsertStatement), Creating) == UsernameExists
    ensures KeyConflict(EmailKey) == EmailExists
  {
    InsertErrorSaysUsername(EmailKey, "john@example.com");
  }

  // ---------------------------------------------------------------------------
  // Timestamp repair
  // ---------------------------------------------------------------------------

  /**
   * A row with every null timestamp set to `now`. A timestamp that is already
   * set is kept, except that a row whose `created_at` was null also gets
   * `updated_at = now`: writing `created_at` alone is an UPDATE that does not
   * name `updated_at`, so the column's `onupdate` default stamps it. No other
   * column changes.
   */
  function RepairRow(u: User, now: Timestamp): (r: User)
    ensures HasTimestamps(r) && SameProfile(r, u)
    ensures u.createdAt.Some? ==> r.createdAt == u.createdAt
    ensures HasTimestamps(u) ==> r.updatedAt == u.updatedAt
    ensures u.createdAt.None? ==> r.createdAt == Some(now) && r.updatedAt == Some(now)
    ensures u.updatedAt.None? ==> r.updatedAt == Some(now)
  {
    if u.createdAt.None? then u.(createdAt := Some(now), updatedAt := Some(now))
    else u.(updatedAt := Some(u.updatedAt.GetOr(now)))
  }

  /** Repair changes nothing on a row that has both timestamps, so repairing twice is repairing once. */
  lemma RepairRowIdempotent(u: User, now: Timestamp, later: Timestamp)
    ensures HasTimestamps(u) ==> RepairRow(u, later) == u
    ensures RepairRow(RepairRow(u, now), later) == RepairRow(u, now)
  {
  }

  /**
   * `UPDATE users SET created_at = now WHERE created_at IS NULL`; the statement
   * does not name `updated_at`, so its `onupdate` default sets it too.
   */
  function FillCreatedAt(t: Table, now: Timestamp): (r: Table)
    ensures r.Keys == t.Keys
    ensures forall k :: k in t ==>
      r[k] == (if t[k].createdAt.None? then t[k].(createdAt := Some(now), updatedAt := Some(now)) else t[k])
  {
    map k | k in t :: if t[k].createdAt.None? then t[k].(createdAt := Some(now), updatedAt := Some(now)) else t[k]
  }

  /** `UPDATE users SET updated_at = now WHERE updated_at IS NULL`. */
  function FillUpdatedAt(t: Table, now: Timestamp): (r: Table)
    ensures r.Keys == t.Keys
    ensures forall k :: k in t ==> r[k] == (if t[k].updatedAt.None? then t[k].(updatedAt := Some(now)) else t[k])
  {
    map k | k in t :: if t[k].updatedAt.None? then t[k].(updatedAt := Some(now)) else t[k]
  }

  /** Every row of the table repaired. */
  function RepairAll(t: Table, now: Timestamp): (r: Table)
    ensures r.Keys == t.Keys
    ensures forall k :: k in t ==> r[k] == RepairRow(t[k], now)
  {
    map k | k in t :: RepairRow(t[k], now)
  }

  /** The two bulk updates together repair every row, each exactly as the single-row repair does. */
  lemma BulkUpdatesRepairAll(t: Table, now: Timestamp)
    ensures FillUpdatedAt(FillCreatedAt(t, now), now) == RepairAll(t, now)
  {
    var r, s := FillUpdatedAt(FillCreatedAt(t, now), now), RepairAll(t, now);
    assert forall k :: k in r ==> r[k] == s[k];
  }

  /**
   * After a bulk repair no row lacks a timestamp and every set timestamp and
   * other column is as before; a second repair, at any time, changes nothing.
   */
  lemma RepairAllIdempotent(t: Table, now: Timestamp, later: Timestamp)
    ensures forall k :: k in RepairAll(t, now) ==> HasTimestamps(RepairAll(t, now)[k])
    ensures RepairAll(RepairAll(t, now), later) == RepairAll(t, now)
  {
    var once := RepairAll(t, now);
    var twice := RepairAll(once, later);
    forall k | k in twice ensures twice[k] == once[k] {
      RepairRowIdempotent(t[k], now, later);
    }
  }

  /** Repair keeps the table valid: it touches no key, username, email or string column. */
  lemma RepairAllKeepsValid(t: Table, now: Timestamp)
    requires TableValid(t)
    ensures TableValid(RepairAll(t, now))
  {
    var r := RepairAll(t, now);
    assert forall k :: k in r ==> SameProfile(r[k], t[k]);
  }

  /** Repairing one row keeps the table invariant. */
  lemma RepairOneKeepsValid(t: Table, id: int, now: Timestamp)
    requires TableValid(t) && id in t
    ensures TableValid(t[id := RepairRow(t[id], now)])
  {
    var r := t[id := RepairRow(t[id], now)];
    assert forall k :: k in r ==> SameProfile(r[k], t[k]);
  }

  /** Repair touches no `active` flag, so the filter selects the same rows before and after it. */
  lemma RepairAllKeepsMatching(t: Table, now: Timestamp, activeOnly: bool)
    ensures MatchingIds(RepairAll(t, now), activeOnly) == MatchingIds(t, activeOnly)
  {
    var r := RepairAll(t, now);
    forall k ensures k in MatchingIds(r, activeOnly) <==> k in MatchingIds(t, activeOnly) {
      if k in t {
        assert r[k].active == t[k].active;
      }
    }
  }

  /** A table that agrees with `before` except that some rows were repaired at `now`. */
  ghost predicate OnlyRepaired(before: Table, after: Table, now: Timestamp)
  {
    after.Keys == before.Keys &&
    forall k :: k in before ==> after[k] == before[k] || after[k] == RepairRow(before[k], now)
  }

  /** Repairs done by one lookup after another are repairs of the original rows. */
  lemma OnlyRepairedTrans(a: Table, b: Table, c: Table, now: Timestamp)
    requires OnlyRepaired(a, b, now) && OnlyRepaired(b, c, now)
    ensures OnlyRepaired(a, c, now)
  {
    forall k | k in a ensures c[k] == a[k] || c[k] == RepairRow(a[k], now) {
      RepairRowIdempotent(a[k], now, now);
    }
  }

  // ---------------------------------------------------------------------------
  // The listing: filter, newest first, page
  // ---------------------------------------------------------------------------

  /** The active-only filter. */
  predicate Matches(u: User, activeOnly: bool)
  {
    !activeOnly || u.active
  }

  /** Ids of the rows the listing selects. */
  function MatchingIds(t: Table, activeOnly: bool): set<int>
  {
    set k | k in t && Matches(t[k], activeOnly)
  }

  /**
   * The sort key of `ORDER BY created_at DESC`. The storage sorts NULL below
   * every instant, so a row without `created_at` comes last.
   */
  function CreatedKey(u: User): int
  {
    match u.createdAt
    case Some(t) => t
    case None => -1
  }

  /** Non-increasing `created_at`. */
  predicate NewestFirst(s: seq<User>)
  {
    forall i, j :: 0 <= i < j < |s| ==> CreatedKey(s[i]) >= CreatedKey(s[j])
  }

  /**
   * The rows with key below `n` that pass the filter, in key order: the scan
   * of the table before sorting.
   */
  function Selected(t: Table, n: nat, activeOnly: bool): (r: seq<User>)
    requires KeysAreIds(t)
    ensures forall i :: 0 <= i < |r| ==> r[i].id in t && t[r[i].id] == r[i] && r[i].id < n && Matches(r[i], activeOnly)
    ensures forall i, j :: 0 <= i < j < |r| ==> r[i].id < r[j].id
    decreases n
  {
    if n == 0 then []
    else
      var prev := Selected(t, n - 1, activeOnly);
      if n - 1 in t && Matches(t[n - 1], activeOnly) then prev + [t[n - 1]] else prev
  }

  /** Ids of the rows with key below `n` that pass the filter. */
  function MatchingBelow(t: Table, n: nat, activeOnly: bool): set<int>
  {
    set k | k in t && k < n && Matches(t[k], activeOnly)
  }

  /** The scan misses no row below `n` that passes the filter. */
  lemma {:induction false} SelectedComplete(t: Table, n: nat, activeOnly: bool, k: int)
    requires KeysAreIds(t) && k in t && k < n && Matches(t[k], activeOnly)
    ensures t[k] in Selected(t, n, activeOnly)
    decreases n
  {
    if k < n - 1 {
      SelectedComplete(t, n - 1, activeOnly, k);
    }
  }

  /** The scan holds one row per selected id. */
  lemma {:induction false} SelectedCount(t: Table, n: nat, activeOnly: bool)
    requires KeysAreIds(t)
    ensures |Selected(t, n, activeOnly)| == |MatchingBelow(t, n, activeOnly)|
    decreases n
  {
    if n > 0 {
      SelectedCount(t, n - 1, activeOnly);
      var below := MatchingBelow(t, n - 1, activeOnly);
      if n - 1 in t && Matches(t[n - 1], activeOnly) {
        assert MatchingBelow(t, n, activeOnly) == below + {n - 1};
      } else {
        assert MatchingBelow(t, n, activeOnly) == below;
      }
    } else {
      assert MatchingBelow(t, n, activeOnly) == {};
    }
  }

  /** A row not older than every row of a newest-first sequence may go in front of it. */
  lemma PrependNewestFirst(x: User, s: seq<User>)
    requires NewestFirst(s)
    requires forall j :: 0 <= j < |s| ==> CreatedKey(x) >= CreatedKey(s[j])
    ensures NewestFirst([x] + s)
  {
    var r := [x] + s;
    forall i, j | 0 <= i < j < |r| ensures CreatedKey(r[i]) >= CreatedKey(r[j]) {
      assert r[j] == s[j - 1];
      if i > 0 {
        assert r[i] == s[i - 1];
      }
    }
  }

  /** The tail of a non-empty newest-first sequence is newest first, and its head is not older than any row of it. */
  lemma NewestFirstTail(s: seq<User>)
    requires NewestFirst(s) && s != []
    ensures s == [s[0]] + s[1..]
    ensures NewestFirst(s[1..])
    ensures forall j :: 0 <= j < |s[1..]| ==> CreatedKey(s[0]) >= CreatedKey(s[1..][j])
  {
    assert forall j :: 0 <= j < |s[1..]| ==> s[1..][j] == s[j + 1];
  }

  /** A row not older than every row of `s` nor than `extra` is not older than any row of a permutation of them. */
  lemma BoundSurvivesPermutation(h: User, s: seq<User>, extra: User, r: seq<User>)
    requires forall j :: 0 <= j < |s| ==> CreatedKey(h) >= CreatedKey(s[j])
    requires CreatedKey(h) >= CreatedKey(extra)
    requires multiset(r) == multiset(s) + multiset{extra}
    ensures forall j :: 0 <= j < |r| ==> CreatedKey(h) >= CreatedKey(r[j])
  {
    forall j | 0 <= j < |r| ensures CreatedKey(h) >= CreatedKey(r[j]) {
      assert r[j] in multiset(r);
      if r[j] != extra {
        assert r[j] in multiset(s);
        var m :| 0 <= m < |s| && s[m] == r[j];
      }
    }
  }

  /** `u` placed into a newest-first sequence, before every row not newer than it. */
  function Insert(u: User, s: seq<User>): (r: seq<User>)
    requires NewestFirst(s)
    ensures NewestFirst(r)
    ensures multiset(r) == multiset(s) + multiset{u}
    decreases |s|
  {
    if s == [] || CreatedKey(u) >= CreatedKey(s[0]) then
      PrependNewestFirst(u, s);
      [u] + s
    else
      NewestFirstTail(s);
      var rest := Insert(u, s[1..]);
      BoundSurvivesPermutation(s[0], s[1..], u, rest);
      PrependNewestFirst(s[0], rest);
      [s[0]] + rest
  }

  /** The rows ordered by `created_at`, newest first; rows with equal `created_at` may come in either order. */
  function SortNewestFirst(s: seq<User>): (r: seq<User>)
    ensures NewestFirst(r)
    ensures multiset(r) == multiset(s)
  {
    if s == [] then []
    else
      assert s == [s[0]] + s[1..];
      Insert(s[0], SortNewestFirst(s[1..]))
  }

  /** Every row the filter selects, newest first. */
  function Listing(t: Table, n: nat, activeOnly: bool): (r: seq<User>)
    requires KeysAreIds(t)
    ensures NewestFirst(r)
    ensures multiset(r) == multiset(Selected(t, n, activeOnly))
  {
    SortNewestFirst(Selected(t, n, activeOnly))
  }

  /**
   * When every key is below `n`, the listing holds exactly the rows that pass
   * the filter, each once, newest first.
   */
  lemma ListingSpec(t: Table, n: nat, activeOnly: bool)
    requires KeysAreIds(t) && forall k :: k in t ==> k < n
    ensures NewestFirst(Listing(t, n, activeOnly))
    ensures |Listing(t, n, activeOnly)| == |MatchingIds(t, activeOnly)|
    ensures forall u :: u in Listing(t, n, activeOnly) <==> u.id in t && t[u.id] == u && Matches(u, activeOnly)
  {
    var s := Selected(t, n, activeOnly);
    var l := Listing(t, n, activeOnly);
    SelectedCount(t, n, activeOnly);
    assert MatchingBelow(t, n, activeOnly) == MatchingIds(t, activeOnly);
    assert |l| == |multiset(l)| == |multiset(s)| == |s|;
    forall u ensures u in l <==> u.id in t && t[u.id] == u && Matches(u, activeOnly) {
      assert u in l <==> u in multiset(l);
      assert u in s <==> u in multiset(s);
      if u.id in t && t[u.id] == u && Matches(u, activeOnly) {
        SelectedComplete(t, n, activeOnly, u.id);
      }
      if u in s {
        var i :| 0 <= i < |s| && s[i] == u;
        assert t[u.id] == u;
      }
    }
  }

  /** `s[skip : skip + limit]` with Python's clamping: past the end gives fewer rows or none. */
  function Page(s: seq<User>, skip: nat, limit: nat): (r: seq<User>)
    ensures |r| == if skip >= |s| then 0 else if limit < |s| - skip then limit else |s| - skip
    ensures forall i :: 0 <= i < |r| ==> r[i] == s[skip + i]
  {
    var lo := if skip < |s| then skip else |s|;
    var hi := if skip + limit < |s| then skip + limit else |s|;
    s[lo..hi]
  }

  /** A page of a newest-first sequence is newest first. */
  lemma PageNewestFirst(s: seq<User>, skip: nat, limit: nat)
    requires NewestFirst(s)
    ensures NewestFirst(Page(s, skip, limit))
  {
  }

  // ---------------------------------------------------------------------------
  // Patches
  // ---------------------------------------------------------------------------

  /** One `setattr` of the update loop. */
  datatype Assignment =
    | SetUsername(username: string)
    | SetEmail(email: string)
    | SetFirstName(firstName: string)
    | SetLastName(lastName: string)
    | SetRole(role: UserRole)
    | SetActive(active: bool)

  /** One entry of the dump: the assignment when the field was set, nothing otherwise. */
  function Opt(present: bool, a: Assignment): (r: seq<Assignment>)
    ensures present ==> a in r
    ensures forall x :: x in r ==> present && x == a
  {
    if present then [a] else []
  }

  /** `a` assigns a field that the patch sets, with the value it sets. */
  predicate SetsField(p: UserUpdate, a: Assignment)
  {
    match a
    case SetUsername(v) => p.username == Some(v)
    case SetEmail(v) => p.email == Some(v)
    case SetFirstName(v) => p.firstName == Some(v)
    case SetLastName(v) => p.lastName == Some(v)
    case SetRole(v) => p.role == Some(v)
    case SetActive(v) => p.active == Some(v)
  }

  /**
   * `model_dump(exclude_unset=True)`: the set fields, in declaration order.
   * It holds an assignment for every field the patch sets, and no other.
   */
  function Dump(p: UserUpdate): (r: seq<Assignment>)
    ensures forall a :: a in r ==> SetsField(p, a)
    ensures p.username.Some? ==> SetUsername(p.username.value) in r
    ensures p.email.Some? ==> SetEmail(p.email.value) in r
    ensures p.firstName.Some? ==> SetFirstName(p.firstName.value) in r
    ensures p.lastName.Some? ==> SetLastName(p.lastName.value) in r
    ensures p.role.Some? ==> SetRole(p.role.value) in r
    ensures p.active.Some? ==> SetActive(p.active.value) in r
  {
    var d1 := Opt(p.username.Some?, SetUsername(p.username.GetOr("")));
    var d2 := Opt(p.email.Some?, SetEmail(p.email.GetOr("")));
    var d3 := Opt(p.firstName.Some?, SetFirstName(p.firstName.GetOr("")));
    var d4 := Opt(p.lastName.Some?, SetLastName(p.lastName.GetOr("")));
    var d5 := Opt(p.role.Some?, SetRole(p.role.GetOr(DefaultRole)));
    var d6 := Opt(p.active.Some?, SetActive(p.active.GetOr(DefaultActive)));
    assert forall x :: x in d1 ==> SetsField(p, x);
    assert forall x :: x in d2 ==> SetsField(p, x);
    assert forall x :: x in d3 ==> SetsField(p, x);
    assert forall x :: x in d4 ==> SetsField(p, x);
    assert forall x :: x in d5 ==> SetsField(p, x);
    assert forall x :: x in d6 ==> SetsField(p, x);
    d1 + (d2 + (d3 + (d4 + (d5 + d6))))
  }

  function SetAttr(u: User, a: Assignment): User
  {
    match a
    case SetUsername(v) => u.(username := v)
    case SetEmail(v) => u.(email := v)
    case SetFirstName(v) => u.(firstName := v)
    case SetLastName(v) => u.(lastName := v)
    case SetRole(v) => u.(role := v)
    case SetActive(v) => u.(active := v)
  }

  /** The row after one entry of the dump. */
  function Then(u: User, present: bool, a: Assignment): User
  {
    if present then SetAttr(u, a) else u
  }

  /** The assignments performed one after another, first to last. */
  function AssignAll(u: User, s: seq<Assignment>): User
    decreases |s|
  {
    if s == [] then u else AssignAll(SetAttr(u, s[0]), s[1..])
  }

  /**
   * The row patched: each field that is present takes its new value, each
   * absent field keeps the old one; id and timestamps are untouched.
   */
  function ApplyPatch(u: User, p: UserUpdate): (r: User)
    ensures r.id == u.id && r.createdAt == u.createdAt && r.updatedAt == u.updatedAt
    ensures p.username.Some? ==> r.username == p.username.value
    ensures p.username.None? ==> r.username == u.username
    ensures p.email.Some? ==> r.email == p.email.value
    ensures p.email.None? ==> r.email == u.email
    ensures p.firstName.Some? ==> r.firstName == p.firstName.value
    ensures p.firstName.None? ==> r.firstName == u.firstName
    ensures p.lastName.Some? ==> r.lastName == p.lastName.value
    ensures p.lastName.None? ==> r.lastName == u.lastName
    ensures p.role.Some? ==> r.role == p.role.value
    ensures p.role.None? ==> r.role == u.role
    ensures p.active.Some? ==> r.active == p.active.value
    ensures p.active.None? ==> r.active == u.active
    ensures FitsColumns(u) && UpdateBounds(p) ==> FitsColumns(r)
  {
    u.(username := p.username.GetOr(u.username),
       email := p.email.GetOr(u.email),
       firstName := p.firstName.GetOr(u.firstName),
       lastName := p.lastName.GetOr(u.lastName),
       role := p.role.GetOr(u.role),
       active := p.active.GetOr(u.active))
  }

  /** Applying a patch twice is applying it once. */
  lemma ApplyPatchIdempotent(u: User, p: UserUpdate)
    ensures ApplyPatch(ApplyPatch(u, p), p) == ApplyPatch(u, p)
  {
  }

  /** Performing one entry of the dump in front of the rest. */
  lemma AssignAllStep(u: User, present: bool, a: Assignment, rest: seq<Assignment>)
    ensures AssignAll(u, Opt(present, a) + rest) == AssignAll(Then(u, present, a), rest)
  {
    if present {
      assert (Opt(present, a) + rest)[1..] == rest;
    } else {
      assert Opt(present, a) + rest == rest;
    }
  }

  /** Performing the dumped assignments one by one gives the patched row. */
  lemma {:induction false} DumpAppliesPatch(u: User, p: UserUpdate)
    ensures AssignAll(u, Dump(p)) == ApplyPatch(u, p)
  {
    var a1, a2, a3 := SetUsername(p.username.GetOr("")), SetEmail(p.email.GetOr("")), SetFirstName(p.firstName.GetOr(""));
    var a4, a5, a6 := SetLastName(p.lastName.GetOr("")), SetRole(p.role.GetOr(DefaultRole)), SetActive(p.active.GetOr(DefaultActive));
    var r6 := Opt(p.active.Some?, a6);
    var r5 := Opt(p.role.Some?, a5) + r6;
    var r4 := Opt(p.lastName.Some?, a4) + r5;
    var r3 := Opt(p.firstName.Some?, a3) + r4;
    var r2 := Opt(p.email.Some?, a2) + r3;
    var u1 := Then(u, p.username.Some?, a1);
    var u2 := Then(u1, p.email.Some?, a2);
    var u3 := Then(u2, p.firstName.Some?, a3);
    var u4 := Then(u3, p.lastName.Some?, a4);
    var u5 := Then(u4, p.role.Some?, a5);
    var u6 := Then(u5, p.active.Some?, a6);
    AssignAllStep(u, p.username.Some?, a1, r2);
    AssignAllStep(u1, p.email.Some?, a2, r3);
    AssignAllStep(u2, p.firstName.Some?, a3, r4);
    AssignAllStep(u3, p.lastName.Some?, a4, r5);
    AssignAllStep(u4, p.role.Some?, a5, r6);
    AssignAllStep(u5, p.active.Some?, a6, []);
    assert r6 + [] == r6;
    assert u6 == ApplyPatch(u, p);
  }

  /** The `setattr` loop of the update: every set field assigned, in order. */
  method AssignFields(u: User, p: UserUpdate) returns (row: User)
    ensures row == ApplyPatch(u, p)
  {
    var data := Dump(p);
    DumpAppliesPatch(u, p);
    row := u;
    var i := 0;
    while i < |data|
      invariant 0 <= i <= |data|
      invariant AssignAll(row, data[i..]) == ApplyPatch(u, p)
    {
      assert data[i..][1..] == data[i + 1..];
      row := SetAttr(row, data[i]);
      i := i + 1;
    }
  }

  /**
   * The row `create_user` builds: every validated field copied, both
   * timestamps `now`. A create within the schema bounds fits the columns.
   */
  function NewRow(id: int, data: UserCreate, now: Timestamp): (r: User)
    ensures r.id == id && HasTimestamps(r) && r.createdAt == r.updatedAt == Some(now)
    ensures r.username == data.username && r.email == data.email &&
            r.firstName == data.firstName && r.lastName == data.lastName &&
            r.role == data.role && r.active == data.active
    ensures CreateBounds(data) ==> FitsColumns(r)
  {
    User(id, data.username, data.email, data.firstName, data.lastName, data.role, data.active, Some(now), Some(now))
  }

  // ---------------------------------------------------------------------------
  // The service over the table
  // ---------------------------------------------------------------------------

  /**
   * The users table as the service sees it through its session: the committed
   * rows and the next AUTO_INCREMENT value. Every method runs to its commit or
   * rollback before the next starts.
   */
  class UserService {
    var rows: Table
    var nextId: int

    ghost predicate Valid()
      reads this
    {
      TableValid(rows) && nextId >= 1 && forall k :: k in rows ==> k < nextId
    }

    /** An empty table. */
    constructor ()
      ensures Valid() && rows == map[] && nextId == 1
    {
      rows := map[];
      nextId := 1;
    }

    /**
     * Inserts a row copying every field of `data`, with id the next
     * AUTO_INCREMENT value and `created_at == updated_at == now`, and commits.
     * A commit that would break a unique key is rolled back: no row changes,
     * and the error names a broken key (username or email), classified from
     * the storage's message. The id is spent either way.
     */
    method CreateUser(data: UserCreate, now: Timestamp) returns (r: Result<User, Failure>)
      requires Valid() && CreateBounds(data)
      modifies this
      ensures Valid()
      ensures nextId == old(nextId) + 1
      ensures ViolatedKeys(old(rows), NewRow(old(nextId), data, now)) == {} ==>
        r == Success(NewRow(old(nextId), data, now)) && rows == old(rows)[old(nextId) := r.value]
      ensures ViolatedKeys(old(rows), NewRow(old(nextId), data, now)) != {} ==>
        rows == old(rows) && r.Failure? &&
        exists key :: key in ViolatedKeys(old(rows), NewRow(old(nextId), data, now)) && r.error == KeyConflict(key)
    {
      var row := NewRow(nextId, data, now);
      nextId := nextId + 1;
      var broken := ViolatedKeys(rows, row);
      CommitKeepsTableValid(rows, row);
      if broken == {} {
        rows := rows[row.id := row];
        r := Success(row);
      } else {
        var key :| key in broken;
        ClassifyKey(key, Creating);
        r := Failure(Classify(key.Name(), Creating));
      }
    }

    /**
     * `_fix_user_timestamps`: sets each null timestamp of one row to `now` and
     * commits. A flush that writes the row without assigning `updated_at`
     * gets `updated_at = now` from the column's `onupdate` default.
     */
    method FixUserTimestamps(id: int, now: Timestamp)
      requires Valid() && id in rows
      modifies this
      ensures Valid() && nextId == old(nextId)
      ensures rows == old(rows)[id := RepairRow(old(rows)[id], now)]
    {
      var row := rows[id];
      var dirty, assignedUpdatedAt := false, false;
      if row.createdAt.None? {
        row := row.(createdAt := Some(now));
        dirty := true;
      }
      if row.updatedAt.None? {
        row := row.(updatedAt := Some(now));
        dirty, assignedUpdatedAt := true, true;
      }
      if dirty && !assignedUpdatedAt {
        row := row.(updatedAt := Some(now));
      }
      assert row == RepairRow(rows[id], now);
      RepairOneKeepsValid(rows, id, now);
      rows := rows[id := row];
    }

    /**
     * The row with this id, or None. A row that lacks a timestamp is repaired
     * in place first, so the row returned has both; nothing else changes.
     */
    method GetUserById(id: int, now: Timestamp) returns (u: Option<User>)
      requires Valid()
      modifies this
      ensures Valid() && nextId == old(nextId)
      ensures u.Some? <==> id in old(rows)
      ensures u.Some? ==> u.value == RepairRow(old(rows)[id], now) && HasTimestamps(u.value) &&
                          u.value.id == id && rows == old(rows)[id := u.value]
      ensures u.None? ==> rows == old(rows)
    {
      if id in rows {
        var row := rows[id];
        if row.createdAt.None? || row.updatedAt.None? {
          FixUserTimestamps(id, now);
        }
        u := Some(rows[id]);
      } else {
        u := None;
      }
    }

    /** The row holding this username, or None; repaired as by GetUserById. */
    method GetUserByUsername(username: string, now: Timestamp) returns (u: Option<User>)
      requires Valid()
      modifies this
      ensures Valid() && nextId == old(nextId)
      ensures u.Some? <==> UsernameTaken(old(rows), username)
      ensures u.Some? ==> u.value.username == username && u.value.id in old(rows) &&
                          u.value == RepairRow(old(rows)[u.value.id], now) && HasTimestamps(u.value) &&
                          rows == old(rows)[u.value.id := u.value]
      ensures u.None? ==> rows == old(rows)
    {
      if UsernameTaken(rows, username) {
        var k :| k in rows && rows[k].username == username;
        var row := rows[k];
        if row.createdAt.None? || row.updatedAt.None? {
          FixUserTimestamps(k, now);
        }
        u := Some(rows[k]);
      } else {
        u := None;
      }
    }

    /** The row holding this email, or None; repaired as by GetUserById. */
    method GetUserByEmail(email: string, now: Timestamp) returns (u: Option<User>)
      requires Valid()
      modifies this
      ensures Valid() && nextId == old(nextId)
      ensures u.Some? <==> EmailTaken(old(rows), email)
      ensures u.Some? ==> u.value.email == email && u.value.id in old(rows) &&
                          u.value == RepairRow(old(rows)[u.value.id], now) && HasTimestamps(u.value) &&
                          rows == old(rows)[u.value.id := u.value]
      ensures u.None? ==> rows == old(rows)
    {
      if EmailTaken(rows, email) {
        var k :| k in rows && rows[k].email == email;
        var row := rows[k];
        if row.createdAt.None? || row.updatedAt.None? {
          FixUserTimestamps(k, now);
        }
        u := Some(rows[k]);
      } else {
        u := None;
      }
    }

    /** `_fix_all_user_timestamps`: the two bulk updates, then one commit. */
    method FixAllUserTimestamps(now: Timestamp)
      requires Valid()
      modifies this
      ensures Valid() && nextId == old(nextId)
      ensures rows == RepairAll(old(rows), now)
    {
      BulkUpdatesRepairAll(rows, now);
      RepairAllKeepsValid(rows, now);
      rows := FillCreatedAt(rows, now);
      rows := FillUpdatedAt(rows, now);
    }

    /**
     * Repairs every row, then returns one page of the rows that pass the
     * filter, newest first, and the number of all such rows (not of the page).
     */
    method GetUsers(skip: nat, limit: nat, activeOnly: bool, now: Timestamp) returns (users: seq<User>, total: nat)
      requires Valid()
      modifies this
      ensures Valid() && nextId == old(nextId)
      ensures rows == RepairAll(old(rows), now)
      ensures total == |MatchingIds(rows, activeOnly)|
      ensures users == Page(Listing(rows, nextId, activeOnly), skip, limit)
      ensures |users| == if skip >= total then 0 else if limit < total - skip then limit else total - skip
      ensures NewestFirst(users)
      ensures forall u :: u in users ==> u.id in rows && rows[u.id] == u && Matches(u, activeOnly) && HasTimestamps(u)
    {
      FixAllUserTimestamps(now);
      var all := Listing(rows, nextId, activeOnly);
      ListingSpec(rows, nextId, activeOnly);
      RepairAllIdempotent(old(rows), now, now);
      total := |all|;
      users := Page(all, skip, limit);
      PageNewestFirst(all, skip, limit);
      forall u | u in users ensures u in all {
        var i :| 0 <= i < |users| && users[i] == u;
        assert u == all[skip + i];
      }
    }

    /**
     * Patches the row with this id: the set fields take their new values,
     * `updated_at` becomes `now`, id and unset fields are kept. A missing id
     * gives None and no change. A commit that would break a unique key is
     * rolled back to the row as loaded (timestamps repaired) and reports a
     * broken key.
     */
    method UpdateUser(id: int, patch: UserUpdate, now: Timestamp) returns (r: Result<Option<User>, Failure>)
      requires Valid() && UpdateBounds(patch)
      modifies this
      ensures Valid() && nextId == old(nextId)
      ensures id !in old(rows) ==> r == Success(None) && rows == old(rows)
      ensures id in old(rows) ==>
        var loaded := RepairRow(old(rows)[id], now);
        var updated := ApplyPatch(loaded, patch).(updatedAt := Some(now));
        (ViolatedKeys(old(rows), updated) == {} ==>
           r == Success(Some(updated)) && rows == old(rows)[id := updated]) &&
        (ViolatedKeys(old(rows), updated) != {} ==>
           rows == old(rows)[id := loaded] && r.Failure? &&
           exists key :: key in ViolatedKeys(old(rows), updated) && r.error == KeyConflict(key))
    {
      var existing := GetUserById(id, now);
      if existing.None? {
        return Success(None);
      }
      var row := AssignFields(existing.value, patch);
      row := row.(updatedAt := Some(now));
      var broken := ViolatedKeys(rows, row);
      ViolatedKeysIgnoreOwnRow(old(rows), row, existing.value);
      CommitKeepsTableValid(rows, row);
      if broken == {} {
        rows := rows[id := row];
        r := Success(Some(row));
      } else {
        var key :| key in broken;
        ClassifyKey(key, Updating);
        r := Failure(Classify(key.Name(), Updating));
      }
    }

    /**
     * Soft delete: sets `active = false` and `updated_at = now` on the row
     * with this id, which stays in the table. True exactly when the row exists;
     * a missing id changes nothing.
     */
    method DeleteUser(id: int, now: Timestamp) returns (deleted: bool)
      requires Valid()
      modifies this
      ensures Valid() && nextId == old(nextId)
      ensures deleted <==> id in old(rows)
      ensures deleted ==>
        rows == old(rows)[id := RepairRow(old(rows)[id], now).(active := false, updatedAt := Some(now))]
      ensures !deleted ==> rows == old(rows)
    {
      var existing := GetUserById(id, now);
      if existing.None? {
        return false;
      }
      var row := existing.value.(active := false, updatedAt := Some(now));
      CommitKeepsTableValid(rows, row);
      rows := rows[id := row];
      deleted := true;
    }

    /**
     * Hard delete: removes the row with this id. True exactly when the row
     * existed; every other row is unchanged.
     */
    method HardDeleteUser(id: int, now: Timestamp) returns (deleted: bool)
      requires Valid()
      modifies this
      ensures Valid() && nextId == old(nextId)
      ensures deleted <==> id in old(rows)
      ensures rows == old(rows) - {id}
    {
      var existing := GetUserById(id, now);
      if existing.None? {
        return false;
      }
      rows := rows - {id};
      deleted := true;
    }
  }
}
