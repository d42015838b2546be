/**
 * The older user directory keyed by GitHub account id (`UsersServiceImpl`):
 * a users table with an AUTOINCREMENT id and a `githubId` column, and a
 * get-or-create that never inserts a second row for the same account.
 */
module GithubUsers {
  import opened Wrappers
  import opened Table

  /** A row of the users table as this service reads and writes it. */
  datatype GithubUser = GithubUser(id: int, githubId: int)

  function UserId(u: GithubUser): int { u.id }

  function HasGithubId(githubId: int): GithubUser -> bool { (u: GithubUser) => u.githubId == githubId }

  /** The first user with the given GitHub id, if any. */
  function LookupGithubId(users: seq<GithubUser>, githubId: int): (r: Option<GithubUser>)
    ensures r.Some? ==> r.value in users && r.value.githubId == githubId
  {
    Head(Where(users, HasGithubId(githubId)))
  }

  /** The lookup comes back empty exactly when no row carries that GitHub id. */
  lemma LookupEmptyIffAbsent(users: seq<GithubUser>, githubId: int)
    ensures LookupGithubId(users, githubId).None? <==> forall u :: u in users ==> u.githubId != githubId
  {
    var w := Where(users, HasGithubId(githubId));
    if w != [] {
      assert w[0] in w;
    } else {
      WhereNone(users, HasGithubId(githubId));
    }
  }

  /** Appending a row never changes a lookup that already succeeds. */
  lemma LookupStable(users: seq<GithubUser>, x: GithubUser, githubId: int)
    requires LookupGithubId(users, githubId).Some?
    ensures LookupGithubId(users + [x], githubId) == LookupGithubId(users, githubId)
  {
    WhereAppend(users, x, HasGithubId(githubId));
  }

  /** A row appended for an unknown GitHub id is what the lookup then finds. */
  lemma LookupFindsAppended(users: seq<GithubUser>, x: GithubUser)
    requires LookupGithubId(users, x.githubId).None?
    ensures LookupGithubId(users + [x], x.githubId) == Some(x)
  {
    WhereAppend(users, x, HasGithubId(x.githubId));
  }

  class UsersService {
    var users: seq<GithubUser>
    var nextId: int

    /** Ids increase in table order and stay below the AUTOINCREMENT counter. */
    ghost predicate Valid()
      reads this
    {
      Ascending(users, UserId) && KeysBelow(users, UserId, nextId)
    }

    constructor ()
      ensures Valid()
      ensures users == [] && nextId == 1
    {
      users := [];
      nextId := 1;
    }

    /** `findUserByGithubId`: the first row with that GitHub id, or nothing; reads only. */
    method FindUserByGithubId(githubId: int) returns (r: Option<GithubUser>)
      ensures r == LookupGithubId(users, githubId)
      ensures r.None? <==> forall u :: u in users ==> u.githubId != githubId
      ensures r.Some? ==> r.value in users && r.value.githubId == githubId
    {
      LookupEmptyIffAbsent(users, githubId);
      r := LookupGithubId(users, githubId);
    }

    /** `createUser`: inserts one row with the next id and returns it. */
    method CreateUser(githubId: int) returns (u: GithubUser)
      requires Valid()
      modifies this
      ensures Valid()
      ensures u == GithubUser(old(nextId), githubId)
      ensures users == old(users) + [u] && nextId == old(nextId) + 1
    {
      u := GithubUser(nextId, githubId);
      users := users + [u];
      nextId := nextId + 1;
    }

    /**
     * `getOrCreateUser`: the existing row for the GitHub id, untouched, or a
     * new one. Either way the lookup afterwards finds the returned row.
     */
    method GetOrCreateUser(githubId: int) returns (u: GithubUser)
      requires Valid()
      modifies this
      ensures Valid()
      ensures old(LookupGithubId(users, githubId)).Some? ==>
                u == old(LookupGithubId(users, githubId)).value &&
                users == old(users) && nextId == old(nextId)
      ensures old(LookupGithubId(users, githubId)).None? ==>
                u == GithubUser(old(nextId), githubId) &&
                users == old(users) + [u] && nextId == old(nextId) + 1
      ensures LookupGithubId(users, githubId) == Some(u)
    {
      var found := FindUserByGithubId(githubId);
      if found.Some? {
        return found.value;
      }
      LookupFindsAppended(users, GithubUser(nextId, githubId));
      u := CreateUser(githubId);
    }

    /** A repeated `getOrCreateUser` returns the same row and inserts nothing more. */
    method GetOrCreateTwice(githubId: int) returns (u1: GithubUser, u2: GithubUser)
      requires Valid()
      modifies this
      ensures Valid()
      ensures u1 == u2
      ensures |users| <= old(|users|) + 1
    {
      u1 := GetOrCreateUser(githubId);
      ghost var between := users;
      u2 := GetOrCreateUser(githubId);
      assert users == between;
    }
  }
}
