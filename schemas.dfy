/**
 * The request and response shapes of the user API: field bounds and defaults
 * of a create, the all-optional patch of an update, and the response records.
 */
module Schemas {
  import opened Wrappers
  import opened Models

  /** Length bounds the schemas put on the input strings. */
  const UsernameMinLength: nat := 3
  const UsernameMaxLength: nat := 50
  const NameMinLength: nat := 1
  const NameMaxLength: nat := 100
  /** The email validator accepts no address longer than this. */
  const EmailMaxLength: nat := 254

  predicate UsernameOk(s: string)
  {
    UsernameMinLength <= |s| <= UsernameMaxLength
  }

  predicate NameOk(s: string)
  {
    NameMinLength <= |s| <= NameMaxLength
  }

  /**
   * The email validator, passed in as `validator`, accepts an address and
   * gives its normalized form (whitespace stripped, domain lower-cased and so
   * on), or rejects it with None. It accepts no address whose normalized form
   * is empty or over 254 characters.
   */
  predicate EmailOk(s: string, validator: string -> Option<string>)
  {
    validator(s).Some? && 1 <= |validator(s).value| <= EmailMaxLength
  }

  /** The input fields a validation error can name. */
  datatype FieldName = Username | Email | FirstName | LastName | Role

  /** A create body as received: `role` and `active` may be omitted; `role` arrives as a string. */
  datatype CreateRequest = CreateRequest(
    username: string,
    email: string,
    firstName: string,
    lastName: string,
    role: Option<string>,
    active: Option<bool>)

  /** A validated create (`UserCreate`), defaults filled in. */
  datatype UserCreate = UserCreate(
    username: string,
    email: string,
    firstName: string,
    lastName: string,
    role: UserRole,
    active: bool)

  /** The bounds every validated create meets. */
  predicate CreateBounds(c: UserCreate)
  {
    UsernameOk(c.username) && 1 <= |c.email| <= EmailMaxLength &&
    NameOk(c.firstName) && NameOk(c.lastName)
  }

  /** The role string, when present, names a role. */
  predicate RoleOk(role: Option<string>)
  {
    role.None? || ParseRole(role.value).Some?
  }

  /** The fields of a create body that fail validation, in declaration order. */
  function CreateErrors(req: CreateRequest, validator: string -> Option<string>): seq<FieldName>
  {
    (if UsernameOk(req.username) then [] else [Username]) +
    (if EmailOk(req.email, validator) then [] else [Email]) +
    (if NameOk(req.firstName) then [] else [FirstName]) +
    (if NameOk(req.lastName) then [] else [LastName]) +
    (if RoleOk(req.role) then [] else [Role])
  }

  /**
   * Validates a create body. It is accepted exactly when every field is in
   * bounds; then every field is copied (the email as the validator normalizes
   * it) and an omitted role or active flag
   * takes its default (`user`, `true`). Otherwise every failing field is
   * reported, and only those.
   */
  function ValidateCreate(req: CreateRequest, validator: string -> Option<string>): (r: Result<UserCreate, seq<FieldName>>)
    ensures r.Success? <==>
      UsernameOk(req.username) && EmailOk(req.email, validator) &&
      NameOk(req.firstName) && NameOk(req.lastName) && RoleOk(req.role)
    ensures r.Success? ==>
      CreateBounds(r.value) &&
      r.value.username == req.username && r.value.email == validator(req.email).value &&
      r.value.firstName == req.firstName && r.value.lastName == req.lastName &&
      (req.role.None? ==> r.value.role == DefaultRole) &&
      (req.role.Some? ==> r.value.role.Value() == req.role.value) &&
      r.value.active == (if req.active.Some? then req.active.value else DefaultActive)
    ensures r.Failure? ==>
      r.error != [] &&
      (Username in r.error <==> !UsernameOk(req.username)) &&
      (Email in r.error <==> !EmailOk(req.email, validator)) &&
      (FirstName in r.error <==> !NameOk(req.firstName)) &&
      (LastName in r.error <==> !NameOk(req.lastName)) &&
      (Role in r.error <==> !RoleOk(req.role))
  {
    var errors := CreateErrors(req, validator);
    if errors != [] then Failure(errors)
    else
      var role := if req.role.Some? then ParseRole(req.role.value).value else DefaultRole;
      Success(UserCreate(req.username, validator(req.email).value, req.firstName, req.lastName, role, req.active.GetOr(DefaultActive)))
  }

  /** An update body as received: every field optional; `role` arrives as a string. */
  datatype UpdateRequest = UpdateRequest(
    username: Option<string>,
    email: Option<string>,
    firstName: Option<string>,
    lastName: Option<string>,
    role: Option<string>,
    active: Option<bool>)

  /** A validated update (`UserUpdate`): the fields that were set, and only those, are `Some`. */
  datatype UserUpdate = UserUpdate(
    username: Option<string>,
    email: Option<string>,
    firstName: Option<string>,
    lastName: Option<string>,
    role: Option<UserRole>,
    active: Option<bool>)

  /** The bounds every validated update meets, on the fields that are present. */
  predicate UpdateBounds(p: UserUpdate)
  {
    (p.username.Some? ==> UsernameOk(p.username.value)) &&
    (p.email.Some? ==> 1 <= |p.email.value| <= EmailMaxLength) &&
    (p.firstName.Some? ==> NameOk(p.firstName.value)) &&
    (p.lastName.Some? ==> NameOk(p.lastName.value))
  }

  /** The present fields of an update body that fail validation, in declaration order. */
  function UpdateErrors(req: UpdateRequest, validator: string -> Option<string>): seq<FieldName>
  {
    (if req.username.None? || UsernameOk(req.username.value) then [] else [Username]) +
    (if req.email.None? || EmailOk(req.email.value, validator) then [] else [Email]) +
    (if req.firstName.None? || NameOk(req.firstName.value) then [] else [FirstName]) +
    (if req.lastName.None? || NameOk(req.lastName.value) then [] else [LastName]) +
    (if RoleOk(req.role) then [] else [Role])
  }

  /**
   * Validates an update body. Absent fields are always acceptable; a present
   * field must meet the same bounds as on create. An accepted body keeps
   * exactly its present fields (a present email normalized); a rejected one
   * reports every failing field.
   */
  function ValidateUpdate(req: UpdateRequest, validator: string -> Option<string>): (r: Result<UserUpdate, seq<FieldName>>)
    ensures r.Success? <==>
      (req.username.Some? ==> UsernameOk(req.username.value)) &&
      (req.email.Some? ==> EmailOk(req.email.value, validator)) &&
      (req.firstName.Some? ==> NameOk(req.firstName.value)) &&
      (req.lastName.Some? ==> NameOk(req.lastName.value)) &&
      RoleOk(req.role)
    ensures r.Success? ==>
      UpdateBounds(r.value) &&
      r.value.username == req.username &&
      (r.value.email.Some? <==> req.email.Some?) &&
      (req.email.Some? ==> r.value.email.value == validator(req.email.value).value) &&
      r.value.firstName == req.firstName && r.value.lastName == req.lastName &&
      r.value.active == req.active &&
      (r.value.role.Some? <==> req.role.Some?) &&
      (req.role.Some? ==> r.value.role.value.Value() == req.role.value)
    ensures r.Failure? ==>
      r.error != [] &&
      (Username in r.error <==> req.username.Some? && !UsernameOk(req.username.value)) &&
      (Email in r.error <==> req.email.Some? && !EmailOk(req.email.value, validator)) &&
      (FirstName in r.error <==> req.firstName.Some? && !NameOk(req.firstName.value)) &&
      (LastName in r.error <==> req.lastName.Some? && !NameOk(req.lastName.value)) &&
      (Role in r.error <==> !RoleOk(req.role))
  {
    var errors := UpdateErrors(req, validator);
    if errors != [] then Failure(errors)
    else
      var role := if req.role.Some? then Some(ParseRole(req.role.value).value) else None;
      var email := if req.email.Some? then Some(validator(req.email.value).value) else None;
      Success(UserUpdate(req.username, email, req.firstName, req.lastName, role, req.active))
  }

  /** A user as returned by the API (`UserResponse`); its timestamps may be null. */
  datatype UserResponse = UserResponse(
    id: int,
    username: string,
    email: string,
    firstName: string,
    lastName: string,
    role: UserRole,
    active: bool,
    createdAt: Option<Timestamp>,
    updatedAt: Option<Timestamp>)

  /** `UserResponse.model_validate` of a row: every column carried over, null timestamps included. */
  function ToResponse(u: User): (r: UserResponse)
    ensures r.id == u.id && r.username == u.username && r.email == u.email
    ensures r.firstName == u.firstName && r.lastName == u.lastName
    ensures r.role == u.role && r.active == u.active
    ensures r.createdAt == u.createdAt && r.updatedAt == u.updatedAt
  {
    UserResponse(u.id, u.username, u.email, u.firstName, u.lastName, u.role, u.active, u.createdAt, u.updatedAt)
  }

  /** The responses for a page of rows, in order. */
  function ToResponses(users: seq<User>): (r: seq<UserResponse>)
    ensures |r| == |users|
    ensures forall i :: 0 <= i < |users| ==> r[i] == ToResponse(users[i])
  {
    if users == [] then [] else [ToResponse(users[0])] + ToResponses(users[1..])
  }

  /** One page of a listing (`UserListResponse`). */
  datatype UserListResponse = UserListResponse(
    users: seq<UserResponse>,
    total: nat,
    page: int,
    size: int,
    pages: nat)
}
