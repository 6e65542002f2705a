/**
 * The HTTP handlers of the user API: each guards its path id, looks the user
 * up (which may repair timestamps), runs the uniqueness pre-checks and then
 * calls the service, reporting the first failure it meets.
 */
module Routes {
  import opened Wrappers
  import opened Text
  import opened Models
  import opened Schemas
  import opened Services

  /** What a handler answers: a value, or the error it raises. */
  datatype Outcome<+T> = Ok(value: T) | InvalidId | NotFound | Rejected(failure: Failure) {

    /**
     * The error detail the client receives: a rejection passes on the
     * service's detail, so the detail names the field whose value is taken.
     */
    function Detail(): (d: string)
      requires !Ok?
      ensures Rejected? ==> d == failure.Detail()
      ensures Contains(d, "Username") <==> Rejected? && failure == UsernameExists
      ensures Contains(d, "Email") <==> Rejected? && failure == EmailExists
    {
      match this
      case InvalidId =>
        MissingCharNotContained("Invalid user ID", "Username", 6);
        MissingCharNotContained("Invalid user ID", "Email", 0);
        "Invalid user ID"
      case NotFound =>
        MissingCharNotContained("User not found", "Username", 6);
        MissingCharNotContained("User not found", "Email", 0);
        "User not found"
      case Rejected(f) =>
        DetailNamesField(f);
        f.Detail()
    }
  }

  /** Two error outcomes have the same detail exactly when they are the same error. */
  lemma DetailIdentifiesError<T>(a: Outcome<T>, b: Outcome<T>)
    requires !a.Ok? && !b.Ok?
    ensures a.Detail() == b.Detail() <==>
      (a.InvalidId? && b.InvalidId?) || (a.NotFound? && b.NotFound?) ||
      (a.Rejected? && b.Rejected? && a.failure == b.failure)
  {
    if a.Rejected? && b.Rejected? && a.failure != b.failure {
      DetailNamesField(a.failure);
      DetailNamesField(b.failure);
    }
  }

  /** The largest page size the listing accepts. */
  const MaxSize: int := 100

  // ---------------------------------------------------------------------------
  // Paging arithmetic
  // ---------------------------------------------------------------------------

  /** The number of rows before page `page` (pages are numbered from 1). */
  function Skip(page: int, size: int): (skip: nat)
    requires page >= 1 && size >= 1
    ensures skip == 0 <==> page == 1
    ensures skip + size == page * size
  {
    (page - 1) * size
  }

  /** The first page starts at the first row, and each page starts where the previous one ends. */
  lemma SkipConsecutive(page: int, size: int)
    requires page >= 1 && size >= 1
    ensures Skip(1, size) == 0
    ensures Skip(page + 1, size) == Skip(page, size) + size
  {
  }

  /**
   * The page count: the least number of pages of `size` rows that hold
   * `total` rows, and 1 when there are none (integer ceiling division).
   */
  function PageCount(total: nat, size: int): (pages: nat)
    requires size >= 1
    ensures pages >= 1
    ensures total > 0 ==> (pages - 1) * size < total <= pages * size
    ensures total == 0 ==> pages == 1
  {
    if total > 0 then
      var q, rem := (total + size - 1) / size, (total + size - 1) % size;
      assert total + size - 1 == q * size + rem && 0 <= rem < size;
      assert (q - 1) * size == q * size - size;
      q
    else 1
  }

  /** With rows to list, a page holds some of them exactly when its number is at most the page count. */
  lemma PagesAreNonEmpty(total: nat, page: int, size: int)
    requires total > 0 && page >= 1 && size >= 1
    ensures page <= PageCount(total, size) <==> Skip(page, size) < total
  {
    var pages := PageCount(total, size);
    if page <= pages {
      assert (page - 1) * size <= (pages - 1) * size by {
        MulMonotone(page - 1, pages - 1, size);
      }
    } else {
      assert pages * size <= (page - 1) * size by {
        MulMonotone(pages, page - 1, size);
      }
    }
  }

  lemma MulMonotone(a: int, b: int, c: nat)
    requires a <= b
    ensures a * c <= b * c
  {
    assert b * c - a * c == (b - a) * c;
  }

  // ---------------------------------------------------------------------------
  // Handlers
  // ---------------------------------------------------------------------------

  /**
   * A username the update sets, non-empty and different from the current one:
   * only then is it pre-checked. Within the update bounds, that is exactly
   * when the patch changes the username.
   */
  predicate UsernameChanges(p: UserUpdate, current: User)
    ensures UpdateBounds(p) ==> (UsernameChanges(p, current) <==> p.username.GetOr(current.username) != current.username)
  {
    p.username.Some? && p.username.value != "" && p.username.value != current.username
  }

  /**
   * An email the update sets, non-empty and different from the current one:
   * only then is it pre-checked. Within the update bounds, that is exactly
   * when the patch changes the email.
   */
  predicate EmailChanges(p: UserUpdate, current: User)
    ensures UpdateBounds(p) ==> (EmailChanges(p, current) <==> p.email.GetOr(current.email) != current.email)
  {
    p.email.Some? && p.email.value != "" && p.email.value != current.email
  }

  /**
   * `POST /`: rejects a taken username, then a taken email, before inserting.
   * A rejection inserts nothing and spends no id (the lookups may repair the
   * row they find). Otherwise the new row is inserted under the next id, and
   * the commit cannot fail.
   */
  method CreateUser(db: UserService, user: UserCreate, now: Timestamp) returns (r: Outcome<UserResponse>)
    requires db.Valid() && CreateBounds(user)
    modifies db
    ensures db.Valid()
    ensures UsernameTaken(old(db.rows), user.username) ==>
      r == Rejected(UsernameExists) && db.nextId == old(db.nextId) && OnlyRepaired(old(db.rows), db.rows, now)
    ensures !UsernameTaken(old(db.rows), user.username) && EmailTaken(old(db.rows), user.email) ==>
      r == Rejected(EmailExists) && db.nextId == old(db.nextId) && OnlyRepaired(old(db.rows), db.rows, now)
    ensures !UsernameTaken(old(db.rows), user.username) && !EmailTaken(old(db.rows), user.email) ==>
      var row := NewRow(old(db.nextId), user, now);
      r == Ok(ToResponse(row)) && db.nextId == old(db.nextId) + 1 && db.rows == old(db.rows)[row.id := row]
  {
    var existingUser := db.GetUserByUsername(user.username, now);
    if existingUser.Some? {
      return Rejected(UsernameExists);
    }
    var existingEmail := db.GetUserByEmail(user.email, now);
    if existingEmail.Some? {
      return Rejected(EmailExists);
    }
    ghost var row := NewRow(db.nextId, user, now);
    assert ViolatedKeys(db.rows, row) == {};
    var created := db.CreateUser(user, now);
    r := Ok(ToResponse(created.value));
  }

  /**
   * `GET /`: one page of `size` rows, page numbers from 1. The response echoes
   * the query, counts every row that passes the filter (before and after
   * repair alike), and gives the page count.
   */
  method GetUsers(db: UserService, page: int, size: int, activeOnly: bool, now: Timestamp) returns (r: UserListResponse)
    requires db.Valid() && page >= 1 && 1 <= size <= MaxSize
    modifies db
    ensures db.Valid() && db.nextId == old(db.nextId)
    ensures db.rows == RepairAll(old(db.rows), now)
    ensures r.total == |MatchingIds(old(db.rows), activeOnly)|
    ensures r.page == page && r.size == size && r.pages == PageCount(r.total, size)
    ensures r.users == ToResponses(Page(Listing(db.rows, db.nextId, activeOnly), Skip(page, size), size))
    ensures |r.users| == if Skip(page, size) >= r.total then 0
                         else if size < r.total - Skip(page, size) then size else r.total - Skip(page, size)
  {
    var skip := Skip(page, size);
    var users, total := db.GetUsers(skip, size, activeOnly, now);
    RepairAllKeepsMatching(old(db.rows), now, activeOnly);
    var pages := PageCount(total, size);
    r := UserListResponse(ToResponses(users), total, page, size, pages);
  }

  /** `GET /{user_id}`: the user, timestamps repaired; a non-positive id is refused before any lookup. */
  method GetUser(db: UserService, userId: int, now: Timestamp) returns (r: Outcome<UserResponse>)
    requires db.Valid()
    modifies db
    ensures db.Valid() && db.nextId == old(db.nextId)
    ensures userId <= 0 ==> r == InvalidId && db.rows == old(db.rows)
    ensures userId > 0 && userId !in old(db.rows) ==> r == NotFound && db.rows == old(db.rows)
    ensures userId > 0 && userId in old(db.rows) ==>
      var loaded := RepairRow(old(db.rows)[userId], now);
      r == Ok(ToResponse(loaded)) && db.rows == old(db.rows)[userId := loaded]
  {
    if userId <= 0 {
      return InvalidId;
    }
    var dbUser := db.GetUserById(userId, now);
    if dbUser.None? {
      return NotFound;
    }
    r := Ok(ToResponse(dbUser.value));
  }

  /**
   * The pre-checks of an update against the row `current`: a username that
   * changes is rejected if taken, then an email that changes likewise. Only
   * the lookups' repairs touch the table.
   */
  method PreCheckUpdate(db: UserService, user: UserUpdate, current: User, now: Timestamp) returns (clash: Option<Failure>)
    requires db.Valid()
    modifies db
    ensures db.Valid() && db.nextId == old(db.nextId)
    ensures OnlyRepaired(old(db.rows), db.rows, now)
    ensures UsernameChanges(user, current) && UsernameTaken(old(db.rows), user.username.value) ==>
      clash == Some(UsernameExists)
    ensures !(UsernameChanges(user, current) && UsernameTaken(old(db.rows), user.username.value)) &&
            EmailChanges(user, current) && EmailTaken(old(db.rows), user.email.value) ==>
      clash == Some(EmailExists)
    ensures !(UsernameChanges(user, current) && UsernameTaken(old(db.rows), user.username.value)) &&
            !(EmailChanges(user, current) && EmailTaken(old(db.rows), user.email.value)) ==>
      clash == None && db.rows == old(db.rows)
  {
    if user.username.Some? && user.username.value != "" && user.username.value != current.username {
      var usernameUser := db.GetUserByUsername(user.username.value, now);
      if usernameUser.Some? {
        return Some(UsernameExists);
      }
    }
    if user.email.Some? && user.email.value != "" && user.email.value != current.email {
      var emailUser := db.GetUserByEmail(user.email.value, now);
      if emailUser.Some? {
        return Some(EmailExists);
      }
    }
    clash := None;
  }

  /**
   * `PUT /{user_id}`: a username that changes is rejected if taken, then an
   * email that changes likewise; a field re-sent with its current value is
   * not checked and is no conflict. When both checks pass the patch commits.
   */
  method UpdateUser(db: UserService, userId: int, user: UserUpdate, now: Timestamp) returns (r: Outcome<UserResponse>)
    requires db.Valid() && UpdateBounds(user)
    modifies db
    ensures db.Valid() && db.nextId == old(db.nextId)
    ensures userId <= 0 ==> r == InvalidId && db.rows == old(db.rows)
    ensures userId > 0 && userId !in old(db.rows) ==> r == NotFound && db.rows == old(db.rows)
    ensures userId > 0 && userId in old(db.rows) ==>
      var current := old(db.rows)[userId];
      var updated := ApplyPatch(RepairRow(current, now), user).(updatedAt := Some(now));
      var usernameClash := UsernameChanges(user, current) && UsernameTaken(old(db.rows), user.username.value);
      var emailClash := EmailChanges(user, current) && EmailTaken(old(db.rows), user.email.value);
      (usernameClash ==> r == Rejected(UsernameExists) && OnlyRepaired(old(db.rows), db.rows, now)) &&
      (!usernameClash && emailClash ==> r == Rejected(EmailExists) && OnlyRepaired(old(db.rows), db.rows, now)) &&
      (!usernameClash && !emailClash ==> r == Ok(ToResponse(updated)) && db.rows == old(db.rows)[userId := updated])
  {
    if userId <= 0 {
      return InvalidId;
    }
    var existingUser := db.GetUserById(userId, now);
    if existingUser.None? {
      return NotFound;
    }
    ghost var t0 := old(db.rows);
    ghost var t1 := db.rows;
    ghost var usernameClash := UsernameChanges(user, t0[userId]) && UsernameTaken(t0, user.username.value);
    ghost var emailClash := EmailChanges(user, t0[userId]) && EmailTaken(t0, user.email.value);
    PreChecksSeeRepairedTable(t0, userId, user, now);
    var clash := PreCheckUpdate(db, user, existingUser.value, now);
    OnlyRepairedTrans(t0, t1, db.rows, now);
    assert usernameClash ==> clash == Some(UsernameExists);
    assert !usernameClash && emailClash ==> clash == Some(EmailExists);
    assert !usernameClash && !emailClash ==> clash == None && db.rows == t1;
    if clash.Some? {
      return Rejected(clash.value);
    }
    CommitAfterPreChecks(t0, userId, user, now);
    var res := db.UpdateUser(userId, user, now);
    r := Ok(ToResponse(res.value.value));
  }

  /**
   * The pre-checks run against the table with the loaded row repaired; they
   * see the same changes and the same values in use as against the table
   * before the lookup.
   */
  lemma PreChecksSeeRepairedTable(t: Table, id: int, p: UserUpdate, now: Timestamp)
    requires id in t
    ensures var loaded := RepairRow(t[id], now);
      (UsernameChanges(p, loaded) <==> UsernameChanges(p, t[id])) &&
      (EmailChanges(p, loaded) <==> EmailChanges(p, t[id])) &&
      UsernameTaken(t[id := loaded], p.username.GetOr("")) == UsernameTaken(t, p.username.GetOr("")) &&
      EmailTaken(t[id := loaded], p.email.GetOr("")) == EmailTaken(t, p.email.GetOr(""))
  {
    var loaded := RepairRow(t[id], now);
    SameUsernamesAfterRepair(t, id, loaded, p.username.GetOr(""));
    SameEmailsAfterRepair(t, id, loaded, p.email.GetOr(""));
  }

  /**
   * When both pre-checks pass, the commit that follows them finds the loaded
   * row already repaired, breaks no unique key, and leaves the table with the
   * updated row in place of the original one.
   */
  lemma CommitAfterPreChecks(t: Table, id: int, p: UserUpdate, now: Timestamp)
    requires TableValid(t) && id in t && t[id].id == id && UpdateBounds(p)
    requires !(UsernameChanges(p, t[id]) && UsernameTaken(t, p.username.value))
    requires !(EmailChanges(p, t[id]) && EmailTaken(t, p.email.value))
    ensures var loaded := RepairRow(t[id], now);
      var updated := ApplyPatch(loaded, p).(updatedAt := Some(now));
      RepairRow(loaded, now) == loaded &&
      ViolatedKeys(t[id := loaded], updated) == {} &&
      t[id := loaded][id := updated] == t[id := updated]
  {
    var loaded := RepairRow(t[id], now);
    var updated := ApplyPatch(loaded, p).(updatedAt := Some(now));
    RepairRowIdempotent(t[id], now, now);
    ViolatedKeysIgnoreOwnRow(t, updated, loaded);
    NoClashAfterPreChecks(t, id, p, updated);
  }

  /** Repairing one row keeps the set of usernames in use. */
  lemma SameUsernamesAfterRepair(t: Table, id: int, loaded: User, name: string)
    requires id in t && SameProfile(loaded, t[id])
    ensures UsernameTaken(t[id := loaded], name) == UsernameTaken(t, name)
  {
    var t' := t[id := loaded];
    if UsernameTaken(t, name) {
      var k :| k in t && t[k].username == name;
      assert t'[k].username == name;
    }
    if UsernameTaken(t', name) {
      var k :| k in t' && t'[k].username == name;
      assert t[k].username == name;
    }
  }

  /** Repairing one row keeps the set of emails in use. */
  lemma SameEmailsAfterRepair(t: Table, id: int, loaded: User, email: string)
    requires id in t && SameProfile(loaded, t[id])
    ensures EmailTaken(t[id := loaded], email) == EmailTaken(t, email)
  {
    var t' := t[id := loaded];
    if EmailTaken(t, email) {
      var k :| k in t && t[k].email == email;
      assert t'[k].email == email;
    }
    if EmailTaken(t', email) {
      var k :| k in t' && t'[k].email == email;
      assert t[k].email == email;
    }
  }

  /**
   * A patched row breaks no unique key when every value it changes is free:
   * an unchanged username or email is held only by the row itself.
   */
  lemma NoClashAfterPreChecks(t: Table, id: int, p: UserUpdate, updated: User)
    requires TableValid(t) && id in t && UpdateBounds(p)
    requires updated.id == id
    requires updated.username == p.username.GetOr(t[id].username)
    requires updated.email == p.email.GetOr(t[id].email)
    requires !(UsernameChanges(p, t[id]) && UsernameTaken(t, p.username.value))
    requires !(EmailChanges(p, t[id]) && EmailTaken(t, p.email.value))
    ensures ViolatedKeys(t, updated) == {}
  {
    forall k | k in t && k != id ensures t[k].username != updated.username {
      if updated.username != t[id].username {
        assert UsernameChanges(p, t[id]);
      }
    }
    forall k | k in t && k != id ensures t[k].email != updated.email {
      if updated.email != t[id].email {
        assert EmailChanges(p, t[id]);
      }
    }
  }

  /** `DELETE /{user_id}`: soft delete; "User not found" exactly when the service finds no row. */
  method DeleteUser(db: UserService, userId: int, now: Timestamp) returns (r: Outcome<()>)
    requires db.Valid()
    modifies db
    ensures db.Valid() && db.nextId == old(db.nextId)
    ensures userId <= 0 ==> r == InvalidId && db.rows == old(db.rows)
    ensures userId > 0 ==> (r == NotFound <==> userId !in old(db.rows)) && (r == Ok(()) <==> userId in old(db.rows))
    ensures userId > 0 && userId !in old(db.rows) ==> db.rows == old(db.rows)
    ensures userId > 0 && userId in old(db.rows) ==>
      db.rows == old(db.rows)[userId := RepairRow(old(db.rows)[userId], now).(active := false, updatedAt := Some(now))]
  {
    if userId <= 0 {
      return InvalidId;
    }
    var deleted := db.DeleteUser(userId, now);
    if !deleted {
      return NotFound;
    }
    r := Ok(());
  }

  /** `DELETE /{user_id}/hard`: removes the row; "User not found" exactly when the service finds no row. */
  method HardDeleteUser(db: UserService, userId: int, now: Timestamp) returns (r: Outcome<()>)
    requires db.Valid()
    modifies db
    ensures db.Valid() && db.nextId == old(db.nextId)
    ensures userId <= 0 ==> r == InvalidId && db.rows == old(db.rows)
    ensures userId > 0 ==> (r == NotFound <==> userId !in old(db.rows)) && (r == Ok(()) <==> userId in old(db.rows))
    ensures userId > 0 ==> db.rows == old(db.rows) - {userId}
  {
    if userId <= 0 {
      return InvalidId;
    }
    var deleted := db.HardDeleteUser(userId, now);
    if !deleted {
      return NotFound;
    }
    r := Ok(());
  }
}
