/** The user service of package com.continuum.api, a copy of the one in package
    com.continuum.user: it applies the same rules, stated once in module Users, to
    its own users table. */
module ApiUsers {
  import opened Wrappers
  import Repository
  import opened Users

  class UserService {
    var repository: seq<User>

    ghost predicate Valid()
      reads this
    {
      WellFormed(repository)
    }

    /** The service over the table the repository already holds. */
    constructor (rows: seq<User>)
      requires WellFormed(rows)
      ensures Valid() && repository == rows
    {
      repository := rows;
    }

    /** createUser; newId is the fresh UUID. */
    method CreateUser(request: CreateUserRequest, newId: string) returns (response: Result<UserResponse, UserError>)
      requires Valid() && !Repository.ExistsById(repository, UserId, newId)
      modifies this
      ensures Valid()
      ensures repository == AfterCreate(old(repository), request, newId)
      ensures response == match CreateOutcome(old(repository), request, newId)
        case Failure(e) => Failure(e)
        case Success(u) => Success(ToResponse(u))
    {
      CreatePreservesWellFormed(repository, request, newId);
      if Repository.ExistsById(repository, Username, request.username) {
        return Failure(UsernameTaken);
      }
      if Repository.ExistsById(repository, Email, request.email) {
        return Failure(EmailTaken);
      }
      var user := NewUser(request, newId);
      repository := repository + [user];
      response := Success(ToResponse(user));
    }

    /** updateUser: Success(None) is the null for an unknown id. */
    method UpdateUser(id: string, request: CreateUserRequest) returns (response: Result<Option<UserResponse>, UserError>)
      requires Valid()
      modifies this
      ensures Valid()
      ensures repository == AfterUpdate(old(repository), id, request)
      ensures response == match UpdateOutcome(old(repository), id, request)
        case Failure(e) => Failure(e)
        case Success(None) => Success(None)
        case Success(Some(u)) => Success(Some(ToResponse(u)))
    {
      UpdatePreservesWellFormed(repository, id, request);
      var optional := Repository.FindById(repository, UserId, id);
      if optional.None? {
        return Success(None);
      }
      var existing := optional.value;
      if existing.username != request.username {
        if Repository.ExistsById(repository, Username, request.username) {
          return Failure(UsernameTaken);
        }
      }
      if existing.email != request.email {
        if Repository.ExistsById(repository, Email, request.email) {
          return Failure(EmailTaken);
        }
      }
      existing := Overwrite(existing, request);
      repository := Repository.Save(repository, UserId, existing);
      response := Success(Some(ToResponse(existing)));
    }

    /** getUserById */
    function GetUserById(id: string): (r: Option<UserResponse>)
      reads this
      ensures r.None? <==> !Repository.ExistsById(repository, UserId, id)
      ensures r.Some? ==> r.value.id == id && FromResponse(r.value) in repository
    {
      FindUser(repository, UserId, id)
    }

    /** getUserByUsername */
    function GetUserByUsername(username: string): (r: Option<UserResponse>)
      reads this
      ensures r.None? <==> !Repository.ExistsById(repository, Username, username)
      ensures r.Some? ==> r.value.username == username && FromResponse(r.value) in repository
    {
      FindUser(repository, Username, username)
    }

    /** deleteUserById */
    method DeleteUserById(id: string) returns (deleted: bool)
      requires Valid()
      modifies this
      ensures Valid()
      ensures deleted == Repository.ExistsById(old(repository), UserId, id)
      ensures repository == Repository.DeleteById(old(repository), UserId, id)
      ensures forall u :: u in repository <==> u in old(repository) && u.id != id
    {
      DeletePreservesWellFormed(repository, id);
      if !Repository.ExistsById(repository, UserId, id) {
        return false;
      }
      repository := Repository.DeleteById(repository, UserId, id);
      return true;
    }
  }
}
