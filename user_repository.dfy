/**
 * The user repository over an in-memory table. The table is a sequence in
 * storage order; `nextId` plays the identity column that assigns each
 * inserted user its key. Every change takes effect at once, and
 * `pendingChanges` counts the changes `SaveChangesAsync` will report.
 */
module Repositories {
  import opened Wrappers
  import opened Models
  import opened Text
  import opened Search

  /** The exception the repository throws on a null or blank argument. */
  datatype RepositoryError = ArgumentNullException(paramName: string)

  /** The argument guard `IsNullOrEmpty(s) || IsNullOrWhiteSpace(s)`. */
  predicate IsBlank(s: Option<string>)
  {
    IsNullOrEmpty(s) || IsNullOrWhiteSpace(s)
  }

  /** LINQ's `FirstOrDefault`: the first user satisfying `p`, or null. */
  function FirstOrDefault(users: seq<User>, p: User -> bool): (r: Option<User>)
    ensures r.None? <==> forall i :: 0 <= i < |users| ==> !p(users[i])
    ensures r.Some? ==> exists i :: (0 <= i < |users| && users[i] == r.value && p(users[i])
      && forall j :: 0 <= j < i ==> !p(users[j]))
  {
    match FirstIndex(users, p)
    case None => None
    case Some(i) => Some(users[i])
  }

  /** `x.ToLower() == y.ToLower()`. */
  predicate SameIgnoringCase(x: string, y: string)
  {
    ToLower(x) == ToLower(y)
  }

  /** The query of `GetUserByIdAsync`. */
  function FindById(users: seq<User>, id: int): (r: Option<User>)
    ensures r.None? <==> forall i :: 0 <= i < |users| ==> users[i].id != id
    ensures r.Some? ==> r.value in users && r.value.id == id
  {
    FirstOrDefault(users, (u: User) => u.id == id)
  }

  /** The query of `LoginUserAsync`. */
  function FindByUsername(users: seq<User>, username: string): (r: Option<User>)
    ensures r.None? <==> forall i :: 0 <= i < |users| ==> !SameIgnoringCase(users[i].username, username)
    ensures r.Some? ==> exists i :: (0 <= i < |users| && users[i] == r.value
      && SameIgnoringCase(r.value.username, username)
      && forall j :: 0 <= j < i ==> !SameIgnoringCase(users[j].username, username))
  {
    FirstOrDefault(users, (u: User) => SameIgnoringCase(u.username, username))
  }

  /** The query of `UsernameExistsAsync`. */
  predicate UsernameExists(users: seq<User>, username: string)
  {
    exists i :: 0 <= i < |users| && SameIgnoringCase(users[i].username, username)
  }

  /** The query of `EmailExistsAsync`. */
  predicate EmailExists(users: seq<User>, email: string)
  {
    exists i :: 0 <= i < |users| && SameIgnoringCase(users[i].email, email)
  }

  /** A login lookup finds a user exactly when the username exists. */
  lemma LoginAgreesWithUsernameExists(users: seq<User>, username: string)
    ensures FindByUsername(users, username).Some? <==> UsernameExists(users, username)
    ensures FindByUsername(users, username).Some? ==>
      FindByUsername(users, username).value in users
      && SameIgnoringCase(FindByUsername(users, username).value.username, username)
  {
    var p := (u: User) => SameIgnoringCase(u.username, username);
    if UsernameExists(users, username) {
      var i :| 0 <= i < |users| && SameIgnoringCase(users[i].username, username);
      assert p(users[i]);
    }
  }

  /** Lower-casing the argument first changes neither the username lookups nor their guard. */
  lemma UsernameLookupIgnoresCase(users: seq<User>, username: string)
    ensures UsernameExists(users, ToLower(username)) == UsernameExists(users, username)
    ensures FindByUsername(users, ToLower(username)) == FindByUsername(users, username)
    ensures IsBlank(Some(ToLower(username))) == IsBlank(Some(username))
  {
    ToLowerIdempotent(username);
    ToLowerKeepsBlankness(username);
    FirstIndexAgrees(users,
      (u: User) => SameIgnoringCase(u.username, ToLower(username)),
      (u: User) => SameIgnoringCase(u.username, username));
  }

  /** Lower-casing the argument first changes neither the email lookup nor its guard. */
  lemma EmailLookupIgnoresCase(users: seq<User>, email: string)
    ensures EmailExists(users, ToLower(email)) == EmailExists(users, email)
    ensures IsBlank(Some(ToLower(email))) == IsBlank(Some(email))
  {
    ToLowerIdempotent(email);
    ToLowerKeepsBlankness(email);
  }

  /** No two stored users share a key. */
  predicate DistinctIds(users: seq<User>)
  {
    forall i, j :: 0 <= i < j < |users| ==> users[i].id != users[j].id
  }

  /** A lookup by a stored user's key finds that user. */
  lemma FindByIdFindsStored(users: seq<User>, i: nat)
    requires DistinctIds(users) && i < |users|
    ensures FindById(users, users[i].id) == Some(users[i])
  {
  }

  /** `DbSet.Remove`: drops the rows with the given key, keeping the others in order. */
  function RemoveById(users: seq<User>, id: int): (r: seq<User>)
    ensures |r| <= |users|
  {
    if users == [] then []
    else if users[0].id == id then RemoveById(users[1..], id)
    else [users[0]] + RemoveById(users[1..], id)
  }

  /** The users left are exactly the stored users with a different key. */
  lemma {:induction false} RemoveByIdMembers(users: seq<User>, id: int)
    ensures forall u :: u in RemoveById(users, id) <==> u in users && u.id != id
  {
    if users != [] {
      RemoveByIdMembers(users[1..], id);
      assert users == [users[0]] + users[1..];
    }
  }

  /** Removing a key nobody holds leaves the table as it is. */
  lemma {:induction false} RemoveAbsentId(users: seq<User>, id: int)
    requires forall j :: 0 <= j < |users| ==> users[j].id != id
    ensures RemoveById(users, id) == users
  {
    if users != [] {
      RemoveAbsentId(users[1..], id);
      assert users == [users[0]] + users[1..];
    }
  }

  /** The keys after the first stay distinct and differ from the first. */
  lemma DistinctIdsTail(users: seq<User>)
    requires DistinctIds(users) && users != []
    ensures DistinctIds(users[1..])
    ensures forall j :: 1 <= j < |users| ==> users[j].id != users[0].id
  {
    var tail := users[1..];
    forall a, b | 0 <= a < b < |tail| ensures tail[a].id != tail[b].id {
      assert tail[a] == users[a + 1] && tail[b] == users[b + 1];
    }
  }

  /** Removing a stored user's key removes exactly that user and keeps the rest in order. */
  lemma {:induction false} RemoveStoredId(users: seq<User>, i: nat)
    requires DistinctIds(users) && i < |users|
    ensures RemoveById(users, users[i].id) == users[..i] + users[i + 1..]
  {
    var tail := users[1..];
    DistinctIdsTail(users);
    if i == 0 {
      RemoveAbsentId(tail, users[0].id);
    } else {
      assert tail[i - 1] == users[i];
      RemoveStoredId(tail, i - 1);
      KeptHeadThenRest(users, i);
    }
  }

  lemma KeptHeadThenRest(users: seq<User>, i: nat)
    requires 0 < i < |users| && users[0].id != users[i].id
    requires RemoveById(users[1..], users[i].id) == users[1..][..i - 1] + users[1..][i..]
    ensures RemoveById(users, users[i].id) == users[..i] + users[i + 1..]
  {
    var tail := users[1..];
    assert users[..i] == [users[0]] + tail[..i - 1];
    assert users[i + 1..] == tail[i..];
  }

  class UserRepository {
    var users: seq<User>
    var nextId: int
    var pendingChanges: nat

    /** Keys are distinct and below the next key the identity column hands out. */
    ghost predicate Valid()
      reads this
    {
      nextId >= 1 && DistinctIds(users)
      && forall i :: 0 <= i < |users| ==> 1 <= users[i].id < nextId
    }

    constructor ()
      ensures Valid() && users == [] && pendingChanges == 0
    {
      users := [];
      nextId := 1;
      pendingChanges := 0;
    }

    /** Every user, in table order. */
    method GetAllUsersAsync() returns (r: seq<User>)
      ensures r == users
    {
      r := users;
    }

    /** The first user with the given key, or null. */
    method GetUserByIdAsync(id: int) returns (r: Option<User>)
      ensures r == FindById(users, id)
      ensures r.None? <==> forall i :: 0 <= i < |users| ==> users[i].id != id
      ensures r.Some? ==> r.value in users && r.value.id == id
    {
      r := FindById(users, id);
      if r.None? {
        assert forall i :: 0 <= i < |users| ==> !((u: User) => u.id == id)(users[i]);
      }
    }

    /**
     * Throws on null; otherwise inserts the user, which receives the next key,
     * and returns the stored entity.
     */
    method RegisterUserAsync(user: Option<User>) returns (r: Result<User, RepositoryError>)
      requires Valid()
      modifies this
      ensures Valid()
      ensures user.None? ==> (r == Failure(ArgumentNullException("user"))
        && users == old(users) && nextId == old(nextId) && pendingChanges == old(pendingChanges))
      ensures user.Some? ==> (r == Success(user.value.(id := old(nextId)))
        && users == old(users) + [r.value] && nextId == old(nextId) + 1
        && pendingChanges == old(pendingChanges) + 1)
    {
      if user.None? {
        return Failure(ArgumentNullException("user"));
      }
      var stored := user.value.(id := nextId);
      users := users + [stored];
      nextId := nextId + 1;
      pendingChanges := pendingChanges + 1;
      r := Success(stored);
    }

    /** Throws on a blank username; otherwise the first user whose username matches ignoring case. */
    method LoginUserAsync(username: Option<string>) returns (r: Result<Option<User>, RepositoryError>)
      ensures r.Failure? <==> IsBlank(username)
      ensures r.Failure? ==> r.error == ArgumentNullException("username")
      ensures r.Success? ==> r.value == FindByUsername(users, username.value)
      ensures r.Success? ==> (r.value.Some? <==> UsernameExists(users, username.value))
    {
      if IsBlank(username) {
        return Failure(ArgumentNullException("username"));
      }
      LoginAgreesWithUsernameExists(users, username.value);
      r := Success(FindByUsername(users, username.value));
    }

    /** Does nothing, null included. */
    method UpdateUser(user: Option<User>)
      ensures users == old(users) && nextId == old(nextId) && pendingChanges == old(pendingChanges)
    {
    }

    /** Throws on null; otherwise removes the row with that user's key. */
    method DeleteUser(user: Option<User>) returns (r: Result<(), RepositoryError>)
      requires Valid()
      modifies this
      ensures Valid()
      ensures nextId == old(nextId)
      ensures user.None? ==> (r == Failure(ArgumentNullException("user"))
        && users == old(users) && pendingChanges == old(pendingChanges))
      ensures user.Some? ==> (r == Success(())
        && users == RemoveById(old(users), user.value.id)
        && pendingChanges == old(pendingChanges) + 1)
    {
      if user.None? {
        return Failure(ArgumentNullException("user"));
      }
      var before := users;
      users := RemoveById(users, user.value.id);
      RemoveByIdMembers(before, user.value.id);
      assert forall i :: 0 <= i < |users| ==> users[i] in before;
      assert DistinctIds(users) by { RemovePreservesDistinct(before, user.value.id); }
      pendingChanges := pendingChanges + 1;
      r := Success(());
    }

    /** Throws on a blank username; otherwise whether some username matches ignoring case. */
    method UsernameExistsAsync(username: Option<string>) returns (r: Result<bool, RepositoryError>)
      ensures r.Failure? <==> IsBlank(username)
      ensures r.Failure? ==> r.error == ArgumentNullException("username")
      ensures r.Success? ==>
        (r.value <==> exists i :: 0 <= i < |users| && ToLower(users[i].username) == ToLower(username.value))
    {
      if IsBlank(username) {
        return Failure(ArgumentNullException("username"));
      }
      r := Success(UsernameExists(users, username.value));
    }

    /** Throws on a blank email; otherwise whether some email matches ignoring case. */
    method EmailExistsAsync(email: Option<string>) returns (r: Result<bool, RepositoryError>)
      ensures r.Failure? <==> IsBlank(email)
      ensures r.Failure? ==> r.error == ArgumentNullException("email")
      ensures r.Success? ==>
        (r.value <==> exists i :: 0 <= i < |users| && ToLower(users[i].email) == ToLower(email.value))
    {
      if IsBlank(email) {
        return Failure(ArgumentNullException("email"));
      }
      r := Success(EmailExists(users, email.value));
    }

    /** Commits the pending changes; the count written is never negative, so the result is true. */
    method SaveChangesAsync() returns (ok: bool)
      modifies this`pendingChanges
      ensures ok == (old(pendingChanges) >= 0) && ok
      ensures pendingChanges == 0
    {
      var written := pendingChanges;
      pendingChanges := 0;
      ok := written >= 0;
    }
  }

  /** Removing a key keeps the remaining keys distinct. */
  lemma {:induction false} RemovePreservesDistinct(users: seq<User>, id: int)
    requires DistinctIds(users)
    ensures DistinctIds(RemoveById(users, id))
  {
    if users != [] {
      var tail := users[1..];
      DistinctIdsTail(users);
      RemovePreservesDistinct(tail, id);
      RemoveByIdMembers(tail, id);
      var rest := RemoveById(tail, id);
      if users[0].id != id {
        var r := [users[0]] + rest;
        forall a, b | 0 <= a < b < |r| ensures r[a].id != r[b].id {
          if a == 0 {
            assert r[b] in tail;
          }
        }
      }
    }
  }
}
