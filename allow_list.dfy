/**
 * The allow-list of the Mini App back end: the users that may sign in, by
 * Telegram id, each with the path of their logo and their sports centre.
 * It is filled once from the rows the database returns.
 */
module AllowList {
  import opened Wrappers
  import Text

  /** A row of the users query (`database.UserData`). */
  datatype UserRow = UserRow(id: int, sportsCentre: string, logo: string)

  /** What the list keeps per user. */
  datatype UserData = UserData(logoPath: string, sportsCenter: string)

  function DataOf(row: UserRow): UserData
  {
    UserData(row.logo, row.sportsCentre)
  }

  /** The map the rows fill, in row order: a later row with the same id replaces an earlier one. */
  function UsersOf(rows: seq<UserRow>): map<int, UserData>
    decreases |rows|
  {
    if rows == [] then map[]
    else UsersOf(rows[..|rows| - 1])[rows[|rows| - 1].id := DataOf(rows[|rows| - 1])]
  }

  /** Some row carries `id`. */
  predicate Listed(rows: seq<UserRow>, id: int)
  {
    exists k :: 0 <= k < |rows| && rows[k].id == id
  }

  /** `k` is the last row carrying `id`. */
  predicate LastRow(rows: seq<UserRow>, id: int, k: int)
  {
    0 <= k < |rows| && rows[k].id == id && forall j :: k < j < |rows| ==> rows[j].id != id
  }

  /** The ids of the map are exactly the ids of the rows. */
  lemma {:induction false} UsersOfKeys(rows: seq<UserRow>, id: int)
    ensures id in UsersOf(rows) <==> Listed(rows, id)
    decreases |rows|
  {
    if rows != [] {
      var init := rows[..|rows| - 1];
      UsersOfKeys(init, id);
      if Listed(init, id) {
        var k :| 0 <= k < |init| && init[k].id == id;
        assert rows[k].id == id;
      }
      if Listed(rows, id) && rows[|rows| - 1].id != id {
        var k :| 0 <= k < |rows| && rows[k].id == id;
        assert init[k].id == id;
      }
    }
  }

  /** An id's entry is the data of the last row carrying it. */
  lemma {:induction false} UsersOfLast(rows: seq<UserRow>, id: int, k: int)
    requires LastRow(rows, id, k)
    ensures id in UsersOf(rows) && UsersOf(rows)[id] == DataOf(rows[k])
    decreases |rows|
  {
    var init := rows[..|rows| - 1];
    if k < |rows| - 1 {
      UsersOfLast(init, id, k);
    }
  }

  /** `AllowedUsers`: the filled map, and the rows it was filled from. */
  class AllowedUsers {
    var users: map<int, UserData>
    ghost var rows: seq<UserRow>

    ghost predicate Valid()
      reads this
    {
      users == UsersOf(rows)
    }

    /** `MakeAllowerUsersFromUserData`: one entry per row, in row order. */
    constructor (ud: seq<UserRow>)
      ensures Valid() && rows == ud
    {
      var m: map<int, UserData> := map[];
      var k := 0;
      while k < |ud|
        invariant 0 <= k <= |ud|
        invariant m == UsersOf(ud[..k])
      {
        assert ud[..k + 1][..k] == ud[..k];
        m := m[ud[k].id := UserData(ud[k].logo, ud[k].sportsCentre)];
        k := k + 1;
      }
      assert ud[..k] == ud;
      users := m;
      rows := ud;
    }

    /** `IsUserAllowed`: the user is allowed exactly when one of the rows names them. */
    function IsUserAllowed(userId: int): (b: bool)
      reads this
      requires Valid()
      ensures b <==> Listed(rows, userId)
    {
      UsersOfKeys(rows, userId);
      userId in users
    }

    /**
     * `GetLogoPath`: the logo of the last row naming the user, or an error
     * naming the id when no row does.
     */
    function GetLogoPath(userId: int): (r: Result<string>)
      reads this
      requires Valid()
      ensures r.Err? <==> !Listed(rows, userId)
      ensures r.Err? ==> r.error == "user " + Text.IntToString(userId) + " does not exist"
      ensures forall k :: LastRow(rows, userId, k) ==> r == Ok(rows[k].logo)
    {
      UsersOfKeys(rows, userId);
      forall k | LastRow(rows, userId, k) ensures users[userId] == DataOf(rows[k]) {
        UsersOfLast(rows, userId, k);
      }
      if userId in users then Ok(users[userId].logoPath)
      else Err("user " + Text.IntToString(userId) + " does not exist")
    }
  }
}
