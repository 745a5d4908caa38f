/** Query 3, `liveAwayFromHome`: the users whose current city differs from their hometown. */
module AwayFromHome {
  import opened Wrappers
  import opened Seqs
  import opened Ordering
  import opened Schema

  /**
   * The join of Users with both city tables on the user id, filtered by
   * `CURRENT_CITY_ID != HOMETOWN_CITY_ID`, has a row for `u`.
   */
  predicate LivesAway(db: Database, u: User) {
    exists c, h :: c in db.currentCities && h in db.hometownCities
                   && c.userId == u.id && h.userId == u.id && c.cityId != h.cityId
  }

  /** The query's single statement: `SELECT DISTINCT` over the join, `ORDER BY User_ID`. */
  function AwayRows(db: Database): (r: seq<UserInfo>)
    ensures forall x :: x in r <==> exists u :: u in db.users && Info(u) == x && LivesAway(db, u)
    ensures Distinct(r)
    ensures forall i, j :: 0 <= i < j < |r| ==> r[i].id <= r[j].id
    ensures UniqueUserIds(db.users) ==> StrictlyAscendingIds(r)
  {
    var away := Filter(db.users, (u: User) => LivesAway(db, u));
    var infos := InfosOf(away);
    assert forall x :: x in infos <==> exists u :: u in away && Info(u) == x by {
      forall x | x in infos ensures exists u :: u in away && Info(u) == x {
        var i :| 0 <= i < |away| && infos[i] == x;
        assert away[i] in away;
      }
      forall u | u in away ensures Info(u) in infos {
        var i :| 0 <= i < |away| && away[i] == u;
        assert infos[i] == Info(u);
      }
    }
    var r := SortedDistinctInfos(infos);
    assert UniqueUserIds(db.users) ==> StrictlyAscendingIds(r) by {
      if UniqueUserIds(db.users) {
        DistinctInfosHaveDistinctIds(db.users, r);
      }
    }
    r
  }

  /**
   * A user with a single current city that equals each of their hometowns is never listed;
   * one whose current city differs from a hometown always is.
   */
  lemma AwayWhenCityDiffers(db: Database, u: User, c: UserCity, h: UserCity)
    requires u in db.users && c in db.currentCities && h in db.hometownCities
    requires c.userId == u.id && h.userId == u.id
    ensures c.cityId != h.cityId ==> Info(u) in AwayRows(db)
    ensures (forall c' :: c' in db.currentCities && c'.userId == u.id ==> c' == c)
            && (forall h' :: h' in db.hometownCities && h'.userId == u.id ==> h'.cityId == c.cityId)
            ==> Info(u) !in AwayRows(db)
  {
    if (forall c' :: c' in db.currentCities && c'.userId == u.id ==> c' == c)
       && (forall h' :: h' in db.hometownCities && h'.userId == u.id ==> h'.cityId == c.cityId) {
      forall w | w in db.users && Info(w) == Info(u) ensures !LivesAway(db, w) {
        assert w.id == u.id;
      }
    }
  }

  /** The whole query: the rows of the statement copied one by one; a failure keeps those copied. */
  method FindUsersAwayFromHome(db: Database, failAt: FailurePoint) returns (results: seq<UserInfo>)
    ensures results == RowsBeforeFailure(AwayRows(db), failAt)
  {
    results := CopyRows(AwayRows(db), failAt);
  }
}
