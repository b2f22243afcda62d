/**
 * Request sequences against a fresh store, stated as the responses they get.
 */
module Scenarios {
  import opened Wrappers
  import opened JsValues
  import opened Dates
  import opened LogQuery
  import opened Database
  import opened Api

  /** A name that trims to nothing is refused, whatever white space it is made of. */
  method BlankNameRefused(blank: string) returns (r: Result<User, ApiError>)
    requires forall k :: 0 <= k < |blank| ==> IsSpace(blank[k])
    ensures r == Err(BadRequest(UsernameRequired))
  {
    TrimEmptyIff(blank);
    var store := new Store();
    r := store.CreateUser(Some(blank));
  }

  /** Two names with the same trimmed form: the first is created, the second is a duplicate. */
  method SameTrimmedNameTwice(a: string, b: string) returns (first: Result<User, ApiError>, second: Result<User, ApiError>)
    requires Trim(a) != "" && Trim(a) == Trim(b)
    ensures first == Ok(User(1, a))
    ensures second == Err(BadRequest(UsernameTaken))
  {
    var store := new Store();
    first := store.CreateUser(Some(a));
    assert store.users == [User(1, Trim(a))];
    second := store.CreateUser(Some(b));
  }

  /** Listing the users of a fresh store is a 404; after one user is created it lists that one. */
  method ListAfterOneUser(name: string) returns (before: Result<seq<User>, ApiError>, after: Result<seq<User>, ApiError>)
    requires Trim(name) != ""
    ensures before == Err(NotFound(NoUsers))
    ensures after == Ok([User(1, Trim(name))])
  {
    var store := new Store();
    before := store.ListUsers();
    var created := store.CreateUser(Some(name));
    assert created.Ok?;
    assert store.users == [User(1, Trim(name))];
    after := store.ListUsers();
  }
}
