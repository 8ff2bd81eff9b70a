/** The user table of package com.continuum.user: users with unique usernames and
    unique emails. The rules are written once, as functions from the table and the
    request to the outcome and to the new table; the service classes of both
    packages carry them out. An IllegalArgumentException of the service is a
    Failure, a null result is None. */
module Users {
  import opened Wrappers
  import Repository

  /** A row of the users table. */
  datatype User = User(id: string, username: string, email: string, displayName: Option<string>)

  /** CreateUserRequest, used by create and update; username and email are
      validated as non-blank. */
  datatype CreateUserRequest = CreateUserRequest(username: string, email: string, displayName: Option<string>)

  datatype UserResponse = UserResponse(id: string, username: string, email: string, displayName: Option<string>)

  /** The two IllegalArgumentExceptions: "Username already exists", "Email already exists". */
  datatype UserError = UsernameTaken | EmailTaken

  function UserId(u: User): string { u.id }
  function Username(u: User): string { u.username }
  function Email(u: User): string { u.email }

  /** The table's constraints: primary key, unique username, unique email. */
  ghost predicate WellFormed(rows: seq<User>) {
    && Repository.UniqueIds(rows, UserId)
    && Repository.UniqueIds(rows, Username)
    && Repository.UniqueIds(rows, Email)
  }

  function ToResponse(u: User): UserResponse {
    UserResponse(u.id, u.username, u.email, u.displayName)
  }

  function FromResponse(r: UserResponse): User {
    User(r.id, r.username, r.email, r.displayName)
  }

  /** toResponse copies every column: it and FromResponse are inverses. */
  lemma ResponseRoundTrip(u: User, r: UserResponse)
    ensures FromResponse(ToResponse(u)) == u
    ensures ToResponse(FromResponse(r)) == r
    ensures ToResponse(u) == r <==> u == FromResponse(r)
  {
  }

  // ---------------------------------------------------------------------------
  // createUser

  function NewUser(request: CreateUserRequest, id: string): User {
    User(id, request.username, request.email, request.displayName)
  }

  /** createUser's answer: the username is checked first, then the email. */
  function CreateOutcome(rows: seq<User>, request: CreateUserRequest, newId: string): (r: Result<User, UserError>)
    ensures r == Failure(UsernameTaken) <==> Repository.ExistsById(rows, Username, request.username)
    ensures r == Failure(EmailTaken) <==>
      !Repository.ExistsById(rows, Username, request.username) && Repository.ExistsById(rows, Email, request.email)
    ensures r.Success? ==> r.value == User(newId, request.username, request.email, request.displayName)
  {
    if Repository.ExistsById(rows, Username, request.username) then Failure(UsernameTaken)
    else if Repository.ExistsById(rows, Email, request.email) then Failure(EmailTaken)
    else Success(NewUser(request, newId))
  }

  /** The table after createUser: a failure saves nothing. */
  function AfterCreate(rows: seq<User>, request: CreateUserRequest, newId: string): seq<User> {
    match CreateOutcome(rows, request, newId)
    case Failure(_) => rows
    case Success(u) => rows + [u]
  }

  /** A successful creation adds exactly one row at the end, a failed one changes
      nothing, and the constraints keep holding. */
  lemma CreatePreservesWellFormed(rows: seq<User>, request: CreateUserRequest, newId: string)
    requires WellFormed(rows) && !Repository.ExistsById(rows, UserId, newId)
    ensures CreateOutcome(rows, request, newId).Failure? ==> AfterCreate(rows, request, newId) == rows
    ensures CreateOutcome(rows, request, newId).Success? ==>
      AfterCreate(rows, request, newId) == rows + [NewUser(request, newId)]
    ensures WellFormed(AfterCreate(rows, request, newId))
  {
    if CreateOutcome(rows, request, newId).Success? {
      var u := NewUser(request, newId);
      var r := rows + [u];
      forall i | 0 <= i < |rows| ensures Username(r[i]) != u.username && Email(r[i]) != u.email && UserId(r[i]) != newId {
        assert r[i] == rows[i];
      }
    }
  }

  /** After a successful creation the new user is found by id and by username. */
  lemma CreateThenFind(rows: seq<User>, request: CreateUserRequest, newId: string)
    requires WellFormed(rows) && !Repository.ExistsById(rows, UserId, newId)
    requires CreateOutcome(rows, request, newId).Success?
    ensures Repository.FindById(AfterCreate(rows, request, newId), UserId, newId) == Some(NewUser(request, newId))
    ensures Repository.FindById(AfterCreate(rows, request, newId), Username, request.username) == Some(NewUser(request, newId))
  {
    var r := AfterCreate(rows, request, newId);
    assert r == rows + [NewUser(request, newId)];
    assert UserId(r[|rows|]) == newId && Username(r[|rows|]) == request.username;
    assert Repository.IndexOf(r, UserId, newId) == |rows|;
    assert Repository.IndexOf(r, Username, request.username) == |rows|;
  }

  // ---------------------------------------------------------------------------
  // updateUser

  /** updateUser overwrites username, email and displayName; the id stays. */
  function Overwrite(u: User, request: CreateUserRequest): User {
    u.(username := request.username, email := request.email, displayName := request.displayName)
  }

  /** updateUser's answer: None for an unknown id; otherwise a field is checked
      against the table only when the request changes it, username first. */
  function UpdateOutcome(rows: seq<User>, id: string, request: CreateUserRequest): Result<Option<User>, UserError> {
    match Repository.FindById(rows, UserId, id)
    case None => Success(None)
    case Some(existing) =>
      if existing.username != request.username && Repository.ExistsById(rows, Username, request.username) then
        Failure(UsernameTaken)
      else if existing.email != request.email && Repository.ExistsById(rows, Email, request.email) then
        Failure(EmailTaken)
      else Success(Some(Overwrite(existing, request)))
  }

  /** The table after updateUser: only a successful update of a known id saves. */
  function AfterUpdate(rows: seq<User>, id: string, request: CreateUserRequest): seq<User> {
    match UpdateOutcome(rows, id, request)
    case Success(Some(u)) => Repository.Save(rows, UserId, u)
    case _ => rows
  }

  /** An unknown id gives null and changes nothing. */
  lemma UpdateUnknown(rows: seq<User>, id: string, request: CreateUserRequest)
    requires !Repository.ExistsById(rows, UserId, id)
    ensures UpdateOutcome(rows, id, request) == Success(None)
    ensures AfterUpdate(rows, id, request) == rows
  {
  }

  /** The update is refused exactly when it changes a field to a value another
      user holds; a username clash is reported before an email clash. */
  lemma UpdateRefused(rows: seq<User>, id: string, request: CreateUserRequest)
    requires WellFormed(rows) && Repository.ExistsById(rows, UserId, id)
    ensures var k := Repository.IndexOf(rows, UserId, id);
      var nameClash := exists j :: 0 <= j < |rows| && j != k && rows[j].username == request.username;
      var mailClash := exists j :: 0 <= j < |rows| && j != k && rows[j].email == request.email;
      && (UpdateOutcome(rows, id, request) == Failure(UsernameTaken) <==> nameClash)
      && (UpdateOutcome(rows, id, request) == Failure(EmailTaken) <==> !nameClash && mailClash)
      && (UpdateOutcome(rows, id, request).Success? <==> !nameClash && !mailClash)
  {
    var k := Repository.IndexOf(rows, UserId, id);
    Repository.HeldElsewhere(rows, Username, k, request.username);
    Repository.HeldElsewhere(rows, Email, k, request.email);
  }

  /** Resubmitting a user's own username and email is never refused, although both
      values are taken (by that user). */
  lemma UpdateUnchangedAccepted(rows: seq<User>, id: string, request: CreateUserRequest)
    requires Repository.ExistsById(rows, UserId, id)
    requires var u := Repository.FindById(rows, UserId, id).value;
      request.username == u.username && request.email == u.email
    ensures UpdateOutcome(rows, id, request).Success?
    ensures UpdateOutcome(rows, id, request).value.Some?
  {
  }

  /** A successful update rewrites only the row with that id, and in it only
      username, email and displayName; the constraints keep holding. */
  lemma UpdatePreservesWellFormed(rows: seq<User>, id: string, request: CreateUserRequest)
    requires WellFormed(rows)
    ensures |AfterUpdate(rows, id, request)| == |rows|
    ensures forall i :: 0 <= i < |rows| ==>
      var u, u' := rows[i], AfterUpdate(rows, id, request)[i];
      if u.id == id && UpdateOutcome(rows, id, request).Success?
      then u' == User(u.id, request.username, request.email, request.displayName)
      else u' == u
    ensures WellFormed(AfterUpdate(rows, id, request))
  {
    var outcome := UpdateOutcome(rows, id, request);
    if outcome.Success? && outcome.value.Some? {
      var k := Repository.IndexOf(rows, UserId, id);
      var u := Overwrite(rows[k], request);
      assert Repository.ExistsById(rows, UserId, UserId(u)) by { assert UserId(rows[k]) == id; }
      Repository.SaveExisting(rows, UserId, u);
      var r := AfterUpdate(rows, id, request);
      assert r[k] == u;
      forall i | 0 <= i < |rows| && i != k ensures r[i] == rows[i] {
        assert UserId(rows[i]) != UserId(rows[k]);
      }
      UpdateRefused(rows, id, request);
      forall i, j | 0 <= i < |r| && 0 <= j < |r| && i != j
        ensures Username(r[i]) != Username(r[j]) && Email(r[i]) != Email(r[j])
      {
        if i != k && j != k {
          assert r[i] == rows[i] && r[j] == rows[j];
        } else if i == k {
          assert r[j] == rows[j];
        } else {
          assert r[i] == rows[i];
        }
      }
    }
  }

  // ---------------------------------------------------------------------------
  // deleteUserById, getUserById, getUserByUsername

  /** Deleting removes exactly the user with that id and keeps the constraints. */
  lemma DeletePreservesWellFormed(rows: seq<User>, id: string)
    requires WellFormed(rows)
    ensures !Repository.ExistsById(rows, UserId, id) ==> Repository.DeleteById(rows, UserId, id) == rows
    ensures forall u :: u in Repository.DeleteById(rows, UserId, id) <==> u in rows && u.id != id
    ensures WellFormed(Repository.DeleteById(rows, UserId, id))
  {
    if Repository.ExistsById(rows, UserId, id) {
      Repository.DeleteExisting(rows, UserId, id);
    } else {
      forall u | u in rows ensures u.id != id {
        var i :| 0 <= i < |rows| && rows[i] == u;
        assert UserId(rows[i]) != id;
      }
    }
    Repository.DeleteKeepsUnique(rows, UserId, Username, id);
    Repository.DeleteKeepsUnique(rows, UserId, Email, id);
  }

  /** The lookups: None is the null for a missing user; in a well-formed table the
      user found by username is the only one with it. */
  function FindUser(rows: seq<User>, key: User -> string, value: string): (r: Option<UserResponse>)
    ensures r.None? <==> !Repository.ExistsById(rows, key, value)
    ensures r.Some? ==> key(FromResponse(r.value)) == value && FromResponse(r.value) in rows
  {
    match Repository.FindById(rows, key, value)
    case None => None
    case Some(u) => Some(ToResponse(u))
  }

  /** Under a unique column the lookup finds the one row holding the value. */
  lemma FindUserUnique(rows: seq<User>, key: User -> string, value: string, i: nat)
    requires Repository.UniqueIds(rows, key)
    requires i < |rows| && key(rows[i]) == value
    ensures FindUser(rows, key, value) == Some(ToResponse(rows[i]))
  {
    var k := Repository.IndexOf(rows, key, value);
    assert k == i;
  }

  // ---------------------------------------------------------------------------
  // The service of package com.continuum.user

  class UserService {
    var repository: seq<User>

    ghost predicate Valid()
      reads this
    {
      WellFormed(repository)
    }

    /** The service over the table the repository already holds. */
    constructor (rows: seq<User>)
      requires WellFormed(rows)
      ensures Valid() && repository == rows
    {
      repository := rows;
    }

    /** createUser; newId is the fresh UUID. */
    method CreateUser(request: CreateUserRequest, newId: string) returns (response: Result<UserResponse, UserError>)
      requires Valid() && !Repository.ExistsById(repository, UserId, newId)
      modifies this
      ensures Valid()
      ensures repository == AfterCreate(old(repository), request, newId)
      ensures response == match CreateOutcome(old(repository), request, newId)
        case Failure(e) => Failure(e)
        case Success(u) => Success(ToResponse(u))
    {
      CreatePreservesWellFormed(repository, request, newId);
      if Repository.ExistsById(repository, Username, request.username) {
        return Failure(UsernameTaken);
      }
      if Repository.ExistsById(repository, Email, request.email) {
        return Failure(EmailTaken);
      }
      var user := NewUser(request, newId);
      repository := repository + [user];
      response := Success(ToResponse(user));
    }

    /** updateUser: Success(None) is the null for an unknown id. */
    method UpdateUser(id: string, request: CreateUserRequest) returns (response: Result<Option<UserResponse>, UserError>)
      requires Valid()
      modifies this
      ensures Valid()
      ensures repository == AfterUpdate(old(repository), id, request)
      ensures response == match UpdateOutcome(old(repository), id, request)
        case Failure(e) => Failure(e)
        case Success(None) => Success(None)
        case Success(Some(u)) => Success(Some(ToResponse(u)))
    {
      UpdatePreservesWellFormed(repository, id, request);
      var optional := Repository.FindById(repository, UserId, id);
      if optional.None? {
        return Success(None);
      }
      var existing := optional.value;
      if existing.username != request.username {
        if Repository.ExistsById(repository, Username, request.username) {
          return Failure(UsernameTaken);
        }
      }
      if existing.email != request.email {
        if Repository.ExistsById(repository, Email, request.email) {
          return Failure(EmailTaken);
        }
      }
      existing := Overwrite(existing, request);
      repository := Repository.Save(repository, UserId, existing);
      response := Success(Some(ToResponse(existing)));
    }

    /** getUserById */
    function GetUserById(id: string): (r: Option<UserResponse>)
      reads this
      ensures r.None? <==> !Repository.ExistsById(repository, UserId, id)
      ensures r.Some? ==> r.value.id == id && FromResponse(r.value) in repository
    {
      FindUser(repository, UserId, id)
    }

    /** getUserByUsername */
    function GetUserByUsername(username: string): (r: Option<UserResponse>)
      reads this
      ensures r.None? <==> !Repository.ExistsById(repository, Username, username)
      ensures r.Some? ==> r.value.username == username && FromResponse(r.value) in repository
    {
      FindUser(repository, Username, username)
    }

    /** deleteUserById */
    method DeleteUserById(id: string) returns (deleted: bool)
      requires Valid()
      modifies this
      ensures Valid()
      ensures deleted == Repository.ExistsById(old(repository), UserId, id)
      ensures repository == Repository.DeleteById(old(repository), UserId, id)
      ensures forall u :: u in repository <==> u in old(repository) && u.id != id
    {
      DeletePreservesWellFormed(repository, id);
      if !Repository.ExistsById(repository, UserId, id) {
        return false;
      }
      repository := Repository.DeleteById(repository, UserId, id);
      return true;
    }
  }
}
