/**
 * The `users` table: the role enumeration, the row type with its column
 * constraints, and the table-level uniqueness of username and email that the
 * storage enforces at commit.
 */
module Models {
  import opened Wrappers

  /** The `user_role` enumeration. The schemas import it as `UserRoleEnum`; it is one type. */
  datatype UserRole = Admin | RegularUser | Guest {
    /** The value sent on the wire (the column itself stores the member name, such as `ADMIN`). */
    /** The value stored in the column and sent on the wire. */
    function Value(): string {
      match this
      case Admin => "admin"
      case RegularUser => "user"
      case Guest => "guest"
    }
  }

  /** Looks up the role whose value is `s`: exactly three strings name a role. */
  function ParseRole(s: string): (r: Option<UserRole>)
    ensures r.Some? <==> s in {"admin", "user", "guest"}
    ensures r.Some? ==> r.value.Value() == s
  {
    if s == "admin" then Some(Admin)
    else if s == "user" then Some(RegularUser)
    else if s == "guest" then Some(Guest)
    else None
  }

  /** Every role value names that role and no other. */
  lemma ParseRoleValue(r: UserRole)
    ensures ParseRole(r.Value()) == Some(r)
  {
  }

  /** Column defaults of `role` and `active`. */
  const DefaultRole: UserRole := RegularUser
  const DefaultActive: bool := true

  /** Widths of the string columns. */
  const UsernameColumnWidth: nat := 50
  const EmailColumnWidth: nat := 255
  const NameColumnWidth: nat := 100

  /** An abstract instant; the wall clock is a parameter of every operation that reads it. */
  type Timestamp = nat

  /**
   * One row of `users`. Every column is non-null except the two timestamps,
   * which are nullable (rows written before those columns existed have none).
   */
  datatype User = User(
    id: int,
    username: string,
    email: string,
    firstName: string,
    lastName: string,
    role: UserRole,
    active: bool,
    createdAt: Option<Timestamp>,
    updatedAt: Option<Timestamp>)

  /** The row's strings fit their column widths. */
  predicate FitsColumns(u: User)
  {
    |u.username| <= UsernameColumnWidth && |u.email| <= EmailColumnWidth &&
    |u.firstName| <= NameColumnWidth && |u.lastName| <= NameColumnWidth
  }

  /** Neither timestamp is null. */
  predicate HasTimestamps(u: User)
  {
    u.createdAt.Some? && u.updatedAt.Some?
  }

  /** Two rows agree on every column except the two timestamps. */
  predicate SameProfile(u: User, v: User)
  {
    u.id == v.id && u.username == v.username && u.email == v.email &&
    u.firstName == v.firstName && u.lastName == v.lastName &&
    u.role == v.role && u.active == v.active
  }

  /** The table: rows keyed by their primary key. */
  type Table = map<int, User>

  /** Every row sits under its own id, and ids are positive (AUTO_INCREMENT starts at 1). */
  predicate KeysAreIds(t: Table)
  {
    forall k :: k in t ==> t[k].id == k && k >= 1
  }

  /** No two rows share a username, inactive rows included. */
  predicate UniqueUsernames(t: Table)
  {
    forall a, b :: a in t && b in t && t[a].username == t[b].username ==> a == b
  }

  /** No two rows share an email, inactive rows included. */
  predicate UniqueEmails(t: Table)
  {
    forall a, b :: a in t && b in t && t[a].email == t[b].email ==> a == b
  }

  /**
   * Everything the storage guarantees of the table after every commit: in
   * particular, two different rows never share a username or an email.
   */
  predicate TableValid(t: Table)
    ensures TableValid(t) ==>
      forall a, b :: a in t && b in t && a != b ==> t[a].username != t[b].username && t[a].email != t[b].email
  {
    KeysAreIds(t) && UniqueUsernames(t) && UniqueEmails(t) &&
    forall k :: k in t ==> FitsColumns(t[k])
  }

  /** Some row holds this username. */
  predicate UsernameTaken(t: Table, name: string)
  {
    exists k | k in t :: t[k].username == name
  }

  /** Some row holds this email. */
  predicate EmailTaken(t: Table, email: string)
  {
    exists k | k in t :: t[k].email == email
  }

  /** The two unique keys of the table. */
  datatype UniqueKey = UsernameKey | EmailKey {

    /**
     * The name under which the storage reports the key when its constraint
     * fires: `index=True, unique=True` on username creates the unique index
     * `ix_users_username`; `unique=True` on email creates the key `email`.
     */
    function Name(): string {
      match this
      case UsernameKey => "users.ix_users_username"
      case EmailKey => "users.email"
    }
  }

  /** The unique keys that writing `row` under its id would break: another row already holds the value. */
  function ViolatedKeys(t: Table, row: User): (keys: set<UniqueKey>)
    ensures UsernameKey in keys <==> exists k :: k in t && k != row.id && t[k].username == row.username
    ensures EmailKey in keys <==> exists k :: k in t && k != row.id && t[k].email == row.email
  {
    (if exists k | k in t :: k != row.id && t[k].username == row.username then {UsernameKey} else {}) +
    (if exists k | k in t :: k != row.id && t[k].email == row.email then {EmailKey} else {})
  }

  /**
   * The storage accepts a write exactly when it keeps the table valid: a row
   * that fits its columns can be committed under its id if and only if it
   * breaks no unique key.
   */
  lemma CommitKeepsTableValid(t: Table, row: User)
    requires TableValid(t) && row.id >= 1 && FitsColumns(row)
    ensures ViolatedKeys(t, row) == {} <==> TableValid(t[row.id := row])
  {
    var t' := t[row.id := row];
    if ViolatedKeys(t, row) != {} {
      var k :| k in t && k != row.id && (t[k].username == row.username || t[k].email == row.email);
      assert k in t' && row.id in t' && t'[k] == t[k] && t'[row.id] == row;
    }
  }

  /** Whatever sits under the row's own id does not matter to the unique keys it breaks. */
  lemma ViolatedKeysIgnoreOwnRow(t: Table, row: User, v: User)
    ensures ViolatedKeys(t[row.id := v], row) == ViolatedKeys(t, row)
  {
    var t' := t[row.id := v];
    assert forall k :: k != row.id ==> (k in t' <==> k in t) && (k in t ==> t'[k] == t[k]);
  }
}
