/** Query 2, `lonelyUsers`: the users who appear in no friendship, by ascending id. */
module LonelyUsers {
  import opened Wrappers
  import opened Seqs
  import opened Schema

  /** `EXISTS (SELECT * FROM Friends F WHERE F.USER1_ID = id OR F.USER2_ID = id)`. */
  predicate HasFriendRow(friends: seq<Friendship>, id: int) {
    exists f :: f in friends && (f.user1 == id || f.user2 == id)
  }

  /** The query's single statement. */
  function LonelyRows(db: Database): (r: seq<UserInfo>)
    ensures forall x :: x in r <==>
              exists u :: u in db.users && Info(u) == x && !HasFriendRow(db.friends, u.id)
    ensures forall i, j :: 0 <= i < j < |r| ==> r[i].id <= r[j].id
    ensures UniqueUserIds(db.users) ==> StrictlyAscendingIds(r)
  {
    var lonely := Filter(db.users, (u: User) => !HasFriendRow(db.friends, u.id));
    FilterUniqueIds(db.users, (u: User) => !HasFriendRow(db.friends, u.id));
    SortedInfos(lonely)
  }

  /**
   * Looking at both columns makes the test independent of the order in which the store
   * keeps a pair: a user is listed exactly when nobody is their friend.
   */
  lemma LonelyIffFriendless(db: Database, u: User)
    requires u in db.users
    ensures Info(u) in LonelyRows(db) <==> forall v :: !AreFriends(db.friends, u.id, v)
  {
    if HasFriendRow(db.friends, u.id) {
      var f :| f in db.friends && (f.user1 == u.id || f.user2 == u.id);
      if f.user1 == u.id {
        assert AreFriends(db.friends, u.id, f.user2);
      } else {
        assert AreFriends(db.friends, u.id, f.user1);
      }
      forall w | w in db.users && Info(w) == Info(u) ensures HasFriendRow(db.friends, w.id) {
        assert w.id == u.id;
      }
      assert Info(u) !in LonelyRows(db);
    } else {
      assert Info(u) in LonelyRows(db);
      forall v ensures !AreFriends(db.friends, u.id, v) {
        forall f | f in db.friends ensures !(f.user1 == u.id && f.user2 == v) && !(f.user1 == v && f.user2 == u.id) {
        }
      }
    }
  }

  /**
   * The whole query: the rows of the statement, copied one by one into the result list; a
   * failure of the store leaves the rows copied so far.
   */
  method FindLonelyUsers(db: Database, failAt: FailurePoint) returns (results: seq<UserInfo>)
    ensures results == RowsBeforeFailure(LonelyRows(db), failAt)
    ensures failAt == None ==> forall u :: u in db.users ==>
              (Info(u) in results <==> forall v :: !AreFriends(db.friends, u.id, v))
  {
    results := CopyRows(LonelyRows(db), failAt);
    if failAt == None {
      forall u | u in db.users ensures (Info(u) in results <==> forall v :: !AreFriends(db.friends, u.id, v)) {
        LonelyIffFriendless(db, u);
      }
    }
  }
}
