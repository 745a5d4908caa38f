/**
 * Query 8, `findAgeInfo`: the oldest and the youngest friend of user `userID`.
 *
 * As written, view AF2 selects `F2.user1_id WHERE F2.user1_id = userID`, i.e. the user's own
 * id, so the friends listed in the USER1 column (those with smaller ids) are never found and
 * the user can come out as their own friend. `AllFriendIds` models the views as written;
 * `FriendIdsOf` is the intended friend list, and `FindAgeInfoOfFriends` the query over it.
 */
module AgeInfo {
  import opened Wrappers
  import opened Seqs
  import opened Ordering
  import opened Schema

  datatype AgeInfo = AgeInfo(oldest: UserInfo, youngest: UserInfo)

  /** What a data-access failure yields. */
  const ErrorUser := UserInfo(-1, "ERROR", "ERROR")
  const FailedInfo := AgeInfo(ErrorUser, ErrorUser)

  /** The initial values of the loop variables, returned unchanged when no row comes back. */
  const DefaultOldest := UserInfo(99999999, "", "")
  const DefaultYoungest := UserInfo(999999999, "", "")

  /** View AF1: the USER2 ids of the Friends rows whose USER1 is `uid`. */
  function AF1(friends: seq<Friendship>, uid: int): (ids: seq<int>)
    ensures forall id :: id in ids <==> IsFriendRow(friends, uid, id)
  {
    var rows := Filter(friends, (f: Friendship) => f.user1 == uid);
    MapSeqMembers(rows, (f: Friendship) => f.user2);
    MapSeq(rows, (f: Friendship) => f.user2)
  }

  /** View AF2 as written: the USER1 ids of the Friends rows whose USER1 is `uid`. */
  function AF2(friends: seq<Friendship>, uid: int): (ids: seq<int>)
    ensures forall id :: id in ids <==> id == uid && exists f :: f in friends && f.user1 == uid
  {
    var rows := Filter(friends, (f: Friendship) => f.user1 == uid);
    MapSeqMembers(rows, (f: Friendship) => f.user1);
    MapSeq(rows, (f: Friendship) => f.user1)
  }

  /** View AllFriends as written: `AF1 UNION AF2`. */
  function AllFriendIds(friends: seq<Friendship>, uid: int): (ids: seq<int>)
    ensures forall id :: id in ids <==>
              IsFriendRow(friends, uid, id) || (id == uid && exists f :: f in friends && f.user1 == uid)
    ensures Distinct(ids)
  {
    Dedup(AF1(friends, uid) + AF2(friends, uid))
  }

  /** The USER1 ids of the Friends rows whose USER2 is `uid`: what AF2 was meant to select. */
  function LowerFriendIds(friends: seq<Friendship>, uid: int): (ids: seq<int>)
    ensures forall id :: id in ids <==> IsFriendRow(friends, id, uid)
  {
    var rows := Filter(friends, (f: Friendship) => f.user2 == uid);
    MapSeqMembers(rows, (f: Friendship) => f.user1);
    MapSeq(rows, (f: Friendship) => f.user1)
  }

  /** The intended friend list: the other member of every Friends row that holds `uid`. */
  function FriendIdsOf(friends: seq<Friendship>, uid: int): (ids: seq<int>)
    ensures forall id :: id in ids <==> AreFriends(friends, uid, id)
    ensures Distinct(ids)
    ensures CanonicalFriends(friends) ==> uid !in ids
  {
    Dedup(AF1(friends, uid) + LowerFriendIds(friends, uid))
  }

  /**
   * The views as written miss every friend with a smaller id and, when the user has a
   * friend with a larger id, add the user themselves.
   */
  lemma AllFriendIdsAsWritten(friends: seq<Friendship>, uid: int, v: int)
    requires CanonicalFriends(friends)
    ensures v < uid && AreFriends(friends, uid, v) ==> v !in AllFriendIds(friends, uid)
    ensures (exists w :: AreFriends(friends, uid, w) && uid < w) ==> uid in AllFriendIds(friends, uid)
    ensures v != uid ==> (v in AllFriendIds(friends, uid) <==> AreFriends(friends, uid, v) && uid < v)
  {
    if exists w :: AreFriends(friends, uid, w) && uid < w {
      var w :| AreFriends(friends, uid, w) && uid < w;
      assert IsFriendRow(friends, uid, w);
    }
  }

  /** A concrete case: with the single friendship of users 1 and 2, user 2 has no friend found. */
  lemma AsWrittenLosesFriend()
    ensures AreFriends([Friendship(1, 2)], 2, 1)
    ensures AllFriendIds([Friendship(1, 2)], 2) == []
    ensures 1 in AllFriendIds([Friendship(1, 2)], 1)
  {
    var friends := [Friendship(1, 2)];
    assert friends[0] in friends;
    assert IsFriendRow(friends, 1, 2);
    forall id ensures id !in AllFriendIds(friends, 2) {
      assert !IsFriendRow(friends, 2, id);
    }
    EmptyIfNoMembers(AllFriendIds(friends, 2));
  }

  predicate IdJoin(p: (int, User)) {
    p.0 == p.1.id
  }

  function JoinedUser(p: (int, User)): User {
    p.1
  }

  /** `AllFriends AF JOIN Users U ON AF.fid = U.USER_ID` over the friend ids `ids`. */
  function FriendRows(users: seq<User>, ids: seq<int>): (rows: seq<User>)
    ensures forall u :: u in rows <==> u in users && u.id in ids
  {
    var joined := Filter(Product(ids, users), IdJoin);
    MapSeqMembers(joined, JoinedUser);
    var rows := MapSeq(joined, JoinedUser);
    assert forall u :: u in users && u.id in ids ==> u in rows by {
      forall u | u in users && u.id in ids ensures u in rows {
        assert (u.id, u) in joined;
      }
    }
    rows
  }

  /**
   * Sort key of `ORDER BY year_of_birth, month_of_birth, day_of_birth`: earlier dates first,
   * a NULL part after every known value.
   */
  function BirthKey(u: User): seq<int> {
    NullsLast(u.yearOfBirth) + NullsLast(u.monthOfBirth) + NullsLast(u.dayOfBirth)
  }

  /** A known leading date part decides the order unless it is equal on both sides. */
  lemma KnownPartFirst(a: int, x: seq<int>, b: int, y: seq<int>)
    ensures LexLe(NullsLast(Some(a)) + x, NullsLast(Some(b)) + y) <==> a < b || (a == b && LexLe(x, y))
  {
    assert NullsLast(Some(a)) + x == [0] + ([a] + x);
    assert NullsLast(Some(b)) + y == [0] + ([b] + y);
    LexLeCons(0, [a] + x, 0, [b] + y);
    LexLeCons(a, x, b, y);
  }

  /** For fully known dates the order is the calendar order. */
  lemma BirthKeyIsDateOrder(u: User, v: User)
    requires u.yearOfBirth.Some? && u.monthOfBirth.Some? && u.dayOfBirth.Some?
    requires v.yearOfBirth.Some? && v.monthOfBirth.Some? && v.dayOfBirth.Some?
    ensures LexLe(BirthKey(u), BirthKey(v)) <==>
              var (y1, m1, d1) := (u.yearOfBirth.value, u.monthOfBirth.value, u.dayOfBirth.value);
              var (y2, m2, d2) := (v.yearOfBirth.value, v.monthOfBirth.value, v.dayOfBirth.value);
              y1 < y2 || (y1 == y2 && (m1 < m2 || (m1 == m2 && d1 <= d2)))
  {
    var (u1, u2, u3) := (NullsLast(u.yearOfBirth), NullsLast(u.monthOfBirth), NullsLast(u.dayOfBirth));
    var (v1, v2, v3) := (NullsLast(v.yearOfBirth), NullsLast(v.monthOfBirth), NullsLast(v.dayOfBirth));
    assert BirthKey(u) == u1 + (u2 + u3);
    assert BirthKey(v) == v1 + (v2 + v3);
    KnownPartFirst(u.yearOfBirth.value, u2 + u3, v.yearOfBirth.value, v2 + v3);
    KnownPartFirst(u.monthOfBirth.value, u3, v.monthOfBirth.value, v3);
    assert u3 == NullsLast(u.dayOfBirth) + [] && v3 == NullsLast(v.dayOfBirth) + [];
    KnownPartFirst(u.dayOfBirth.value, [], v.dayOfBirth.value, []);
  }

  /** `rows` is a result the ordered statement may return over the friend ids `ids`. */
  ghost predicate IsAgeRows(db: Database, ids: seq<int>, rows: seq<User>) {
    IsOrderingOf(rows, FriendRows(db.users, ids), BirthKey)
  }

  /** One such result. */
  function SomeAgeRows(db: Database, ids: seq<int>): (rows: seq<User>)
    ensures IsAgeRows(db, ids, rows)
  {
    SortByKeyIsOrdering(FriendRows(db.users, ids), BirthKey);
    SortByKey(FriendRows(db.users, ids), BirthKey)
  }

  /**
   * The loop over the rows: the first row sets the oldest friend and the last row the
   * youngest; with no row both keep their initial values.
   */
  method OldestAndYoungest(rows: seq<User>) returns (info: AgeInfo)
    ensures rows == [] ==> info == AgeInfo(DefaultOldest, DefaultYoungest)
    ensures rows != [] ==> info == AgeInfo(Info(rows[0]), Info(rows[|rows| - 1]))
  {
    var oldest, youngest := DefaultOldest, DefaultYoungest;
    var i := 0;
    while i < |rows|
      invariant 0 <= i <= |rows|
      invariant i > 0 ==> oldest == Info(rows[0])
      invariant i == 0 ==> oldest == DefaultOldest
      invariant youngest == if i == |rows| && i > 0 then Info(rows[i - 1]) else DefaultYoungest
    {
      if i == 0 {
        oldest := Info(rows[i]);
      }
      if i == |rows| - 1 {
        youngest := Info(rows[i]);
      }
      i := i + 1;
    }
    info := AgeInfo(oldest, youngest);
  }

  /**
   * On any admissible result, the first row is born no later than every user the join holds
   * and the last row no earlier.
   */
  lemma FirstOldestLastYoungest(db: Database, ids: seq<int>, rows: seq<User>)
    requires IsAgeRows(db, ids, rows) && rows != []
    ensures rows[0] in db.users && rows[0].id in ids
    ensures rows[|rows| - 1] in db.users && rows[|rows| - 1].id in ids
    ensures forall v :: v in db.users && v.id in ids ==>
              LexLe(BirthKey(rows[0]), BirthKey(v)) && LexLe(BirthKey(v), BirthKey(rows[|rows| - 1]))
  {
    OrderingFacts(rows, FriendRows(db.users, ids), BirthKey);
    assert rows[0] in rows && rows[|rows| - 1] in rows;
    forall v | v in db.users && v.id in ids
      ensures LexLe(BirthKey(rows[0]), BirthKey(v)) && LexLe(BirthKey(v), BirthKey(rows[|rows| - 1]))
    {
      assert v in rows;
      var j :| 0 <= j < |rows| && rows[j] == v;
      if j > 0 {
        assert LexLe(BirthKey(rows[0]), BirthKey(rows[j]));
      } else {
        LexLeReflexive(BirthKey(v));
      }
      if j < |rows| - 1 {
        assert LexLe(BirthKey(rows[j]), BirthKey(rows[|rows| - 1]));
      } else {
        LexLeReflexive(BirthKey(v));
      }
    }
  }

  /** The whole query as written, given the rows its final statement returns. */
  method FindAgeInfo(db: Database, userId: int, rows: seq<User>, storeFails: bool) returns (info: AgeInfo)
    requires IsAgeRows(db, AllFriendIds(db.friends, userId), rows)
    ensures storeFails ==> info == FailedInfo
    ensures !storeFails && rows == [] ==> info == AgeInfo(DefaultOldest, DefaultYoungest)
    ensures !storeFails && rows != [] ==>
              exists o, y :: o in db.users && y in db.users && o.id in AllFriendIds(db.friends, userId)
                             && y.id in AllFriendIds(db.friends, userId)
                             && info == AgeInfo(Info(o), Info(y))
                             && forall v :: v in db.users && v.id in AllFriendIds(db.friends, userId) ==>
                                  LexLe(BirthKey(o), BirthKey(v)) && LexLe(BirthKey(v), BirthKey(y))
    ensures !storeFails && |rows| == 1 ==> info.oldest == info.youngest
  {
    if storeFails {
      return FailedInfo;
    }
    info := OldestAndYoungest(rows);
    if rows != [] {
      FirstOldestLastYoungest(db, AllFriendIds(db.friends, userId), rows);
      var o, y := rows[0], rows[|rows| - 1];
      assert info == AgeInfo(Info(o), Info(y));
    }
  }

  /** The query with the intended friend list: the oldest and youngest among the user's friends. */
  method FindAgeInfoOfFriends(db: Database, userId: int, rows: seq<User>, storeFails: bool)
    returns (info: AgeInfo)
    requires IsAgeRows(db, FriendIdsOf(db.friends, userId), rows)
    ensures storeFails ==> info == FailedInfo
    ensures !storeFails && (forall v :: v in db.users ==> !AreFriends(db.friends, userId, v.id)) ==>
              info == AgeInfo(DefaultOldest, DefaultYoungest)
    ensures !storeFails && (exists v :: v in db.users && AreFriends(db.friends, userId, v.id)) ==>
              exists o, y :: o in db.users && y in db.users
                             && AreFriends(db.friends, userId, o.id) && AreFriends(db.friends, userId, y.id)
                             && info == AgeInfo(Info(o), Info(y))
                             && forall v :: v in db.users && AreFriends(db.friends, userId, v.id) ==>
                                  LexLe(BirthKey(o), BirthKey(v)) && LexLe(BirthKey(v), BirthKey(y))
  {
    if storeFails {
      return FailedInfo;
    }
    info := OldestAndYoungest(rows);
    var ids := FriendIdsOf(db.friends, userId);
    OrderingFacts(rows, FriendRows(db.users, ids), BirthKey);
    if rows == [] {
      assert forall v :: v in db.users && AreFriends(db.friends, userId, v.id) ==> v in rows;
    } else {
      FirstOldestLastYoungest(db, ids, rows);
      var o, y := rows[0], rows[|rows| - 1];
      assert info == AgeInfo(Info(o), Info(y));
    }
  }
}
