/**
 * Query 9, `findPotentialSiblings`: the pairs of friends who share a last name and a
 * hometown and were born less than ten years apart. The statement has no ORDER BY, so the
 * store may return the pairs in any order.
 */
module Siblings {
  import opened Wrappers
  import opened Seqs
  import opened Ordering
  import opened Schema

  datatype SiblingInfo = SiblingInfo(user1: UserInfo, user2: UserInfo)

  /**
   * First part of view MatchTable: users `a` and `b` have the same last name and known birth
   * years less than ten apart (a NULL year makes the difference NULL and drops the pair).
   */
  predicate SameNameClose(users: seq<User>, a: int, b: int) {
    exists u, v :: u in users && v in users && u.id == a && v.id == b
                   && u.lastName == v.lastName
                   && u.yearOfBirth.Some? && v.yearOfBirth.Some?
                   && Abs(u.yearOfBirth.value - v.yearOfBirth.value) < 10
  }

  /** Second part: users `a` and `b` have a hometown in common. */
  predicate SameHometown(hometowns: seq<UserCity>, a: int, b: int) {
    exists h, k :: h in hometowns && k in hometowns && h.userId == a && k.userId == b
                   && h.cityId == k.cityId
  }

  predicate InMatchTable(db: Database, f: Friendship) {
    SameNameClose(db.users, f.user1, f.user2) && SameHometown(db.hometownCities, f.user1, f.user2)
  }

  /** View MatchTable: the three parts INTERSECTed, so each pair once; the last part is Friends. */
  function MatchTable(db: Database): (m: seq<Friendship>)
    ensures forall f :: f in m <==> f in db.friends && InMatchTable(db, f)
    ensures Distinct(m)
  {
    Dedup(Filter(db.friends, f => InMatchTable(db, f)))
  }

  predicate JoinsMatch(p: (Friendship, (User, User))) {
    p.0.user1 == p.1.0.id && p.0.user2 == p.1.1.id
  }

  function SiblingOf(p: (Friendship, (User, User))): SiblingInfo {
    SiblingInfo(Info(p.1.0), Info(p.1.1))
  }

  function MatchJoin(db: Database): (rows: seq<(Friendship, (User, User))>)
    ensures forall p :: p in rows <==>
              p.0 in MatchTable(db) && p.1.0 in db.users && p.1.1 in db.users && JoinsMatch(p)
  {
    Filter(Product(MatchTable(db), Product(db.users, db.users)), JoinsMatch)
  }

  /** The final statement: `FROM Users U1, Users U2, MatchTable Ms` joined on both ids. */
  function SiblingJoin(db: Database): (rows: seq<SiblingInfo>)
    ensures |rows| == |MatchJoin(db)|
  {
    MapSeq(MatchJoin(db), SiblingOf)
  }

  /** What a row of the answer means. */
  ghost predicate IsSiblingPair(db: Database, s: SiblingInfo) {
    exists u, v :: u in db.users && v in db.users && s == SiblingInfo(Info(u), Info(v))
                   && IsFriendRow(db.friends, u.id, v.id)
                   && SameNameClose(db.users, u.id, v.id)
                   && SameHometown(db.hometownCities, u.id, v.id)
  }

  /** Every row of the join is a pair of friends meeting both conditions. */
  lemma JoinedIsSiblingPair(db: Database, s: SiblingInfo)
    requires s in SiblingJoin(db)
    ensures IsSiblingPair(db, s)
  {
    MapSeqMembers(MatchJoin(db), SiblingOf);
    var p :| p in MatchJoin(db) && SiblingOf(p) == s;
    var f, u, v := p.0, p.1.0, p.1.1;
    assert f in MatchTable(db);
    assert f in db.friends && InMatchTable(db, f);
    assert IsFriendRow(db.friends, u.id, v.id);
  }

  /** Every pair of friends meeting both conditions is a row of the join. */
  lemma SiblingPairIsJoined(db: Database, s: SiblingInfo)
    requires IsSiblingPair(db, s)
    ensures s in SiblingJoin(db)
  {
    var u, v :| u in db.users && v in db.users && s == SiblingInfo(Info(u), Info(v))
                && IsFriendRow(db.friends, u.id, v.id)
                && SameNameClose(db.users, u.id, v.id)
                && SameHometown(db.hometownCities, u.id, v.id);
    var f :| f in db.friends && f.user1 == u.id && f.user2 == v.id;
    assert InMatchTable(db, f);
    assert f in MatchTable(db);
    assert (f, (u, v)) in MatchJoin(db);
    MapSeqMembers(MatchJoin(db), SiblingOf);
  }

  /** A pair is in the join exactly when it is a pair of friends meeting both conditions. */
  lemma SiblingJoinMembers(db: Database, s: SiblingInfo)
    ensures s in SiblingJoin(db) <==> IsSiblingPair(db, s)
  {
    if s in SiblingJoin(db) {
      JoinedIsSiblingPair(db, s);
    }
    if IsSiblingPair(db, s) {
      SiblingPairIsJoined(db, s);
    }
  }

  /** With User_ID a key, the join returns each pair once. */
  lemma SiblingJoinDistinct(db: Database)
    requires UniqueUserIds(db.users)
    ensures Distinct(SiblingJoin(db))
  {
    ProductDistinct(db.users, db.users);
    ProductDistinct(MatchTable(db), Product(db.users, db.users));
    var rows := MatchJoin(db);
    forall p, q | p in rows && q in rows && SiblingOf(p) == SiblingOf(q) ensures p == q {
      SameIdSameUser(db.users, p.1.0, q.1.0);
      SameIdSameUser(db.users, p.1.1, q.1.1);
    }
    MapSeqDistinct(rows, SiblingOf);
  }

  /**
   * With User_ID a key, both users of a returned pair have the same last name and known
   * birth years less than ten apart.
   */
  lemma SiblingsShareName(db: Database, s: SiblingInfo)
    requires UniqueUserIds(db.users) && s in SiblingJoin(db)
    ensures s.user1.lastName == s.user2.lastName
    ensures exists u, v :: u in db.users && v in db.users && Info(u) == s.user1 && Info(v) == s.user2
                           && u.yearOfBirth.Some? && v.yearOfBirth.Some?
                           && Abs(u.yearOfBirth.value - v.yearOfBirth.value) < 10
  {
    JoinedIsSiblingPair(db, s);
    var u, v :| u in db.users && v in db.users && s == SiblingInfo(Info(u), Info(v))
                && SameNameClose(db.users, u.id, v.id);
    SameNameCloseUsers(db.users, u, v);
  }

  /** With User_ID a key, the first condition is about the two users themselves. */
  lemma SameNameCloseUsers(users: seq<User>, u: User, v: User)
    requires UniqueUserIds(users) && u in users && v in users && SameNameClose(users, u.id, v.id)
    ensures u.lastName == v.lastName && u.yearOfBirth.Some? && v.yearOfBirth.Some?
    ensures Abs(u.yearOfBirth.value - v.yearOfBirth.value) < 10
  {
    var u', v' :| u' in users && v' in users && u'.id == u.id && v'.id == v.id
                  && u'.lastName == v'.lastName
                  && u'.yearOfBirth.Some? && v'.yearOfBirth.Some?
                  && Abs(u'.yearOfBirth.value - v'.yearOfBirth.value) < 10;
    SameIdSameUser(users, u, u');
    SameIdSameUser(users, v, v');
  }

  /** With friendships stored smaller id first, the first user of a returned pair has the smaller id. */
  lemma SiblingsOrdered(db: Database, s: SiblingInfo)
    requires CanonicalFriends(db.friends) && s in SiblingJoin(db)
    ensures s.user1.id < s.user2.id
  {
    JoinedIsSiblingPair(db, s);
    var u, v :| u in db.users && v in db.users && s == SiblingInfo(Info(u), Info(v))
                && IsFriendRow(db.friends, u.id, v.id);
    var f :| f in db.friends && f.user1 == u.id && f.user2 == v.id;
  }

  /** `rows` is a result the final statement may return: the join in some order. */
  ghost predicate IsSiblingResult(db: Database, rows: seq<SiblingInfo>) {
    multiset(rows) == multiset(SiblingJoin(db))
  }

  /**
   * The whole query given the rows of the final statement: each row becomes one entry; a
   * failure keeps the entries added so far. Without a failure the entries are exactly the
   * sibling pairs.
   */
  method FindPotentialSiblings(db: Database, rows: seq<SiblingInfo>, failAt: FailurePoint)
    returns (results: seq<SiblingInfo>)
    requires IsSiblingResult(db, rows)
    ensures results == RowsBeforeFailure(rows, failAt)
    ensures forall s :: s in results ==> IsSiblingPair(db, s)
    ensures failAt == None ==> forall s :: s in results <==> IsSiblingPair(db, s)
    ensures failAt == None ==> |results| == |SiblingJoin(db)|
    ensures UniqueUserIds(db.users) ==> Distinct(results)
  {
    results := CopyRows(rows, failAt);
    assert forall s :: s in rows <==> s in SiblingJoin(db) by {
      assert forall s :: s in rows <==> s in multiset(rows);
      assert forall s :: s in SiblingJoin(db) <==> s in multiset(SiblingJoin(db));
    }
    assert |rows| == |SiblingJoin(db)| by {
      assert |multiset(rows)| == |multiset(SiblingJoin(db))|;
    }
    forall s | s in results ensures IsSiblingPair(db, s) {
      assert s in rows;
      SiblingJoinMembers(db, s);
    }
    if failAt == None {
      forall s | IsSiblingPair(db, s) ensures s in results {
        SiblingJoinMembers(db, s);
      }
    }
    if UniqueUserIds(db.users) {
      SiblingJoinDistinct(db);
      DistinctMultiplicity(SiblingJoin(db));
      MultisetDistinct(rows);
      assert results == rows[..|results|];
    }
  }
}
