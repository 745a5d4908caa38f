/**
 * Query 6, `suggestFriends`: the top `num` pairs of users who are not friends, ranked by
 * their number of mutual friends, each with the list of those mutual friends.
 */
module SuggestFriends {
  import opened Wrappers
  import opened Seqs
  import opened Ordering
  import opened Schema

  /** An entry of the answer. */
  datatype UsersPair = UsersPair(user1: UserInfo, user2: UserInfo, sharedFriends: seq<UserInfo>)

  /** A row of view NotFriends. */
  datatype PairRow = PairRow(user1: UserInfo, user2: UserInfo)

  /** `U1.USER_ID < U2.USER_ID AND (U1.USER_ID, U2.USER_ID) NOT IN (SELECT * FROM Friends)`. */
  predicate IsNotFriendsPair(friends: seq<Friendship>, p: (User, User)) {
    p.0.id < p.1.id && !IsFriendRow(friends, p.0.id, p.1.id)
  }

  function PairOf(p: (User, User)): PairRow {
    PairRow(Info(p.0), Info(p.1))
  }

  /** `x` is a row of view NotFriends. */
  ghost predicate IsNotFriendsRow(db: Database, x: PairRow) {
    exists u1, u2 :: u1 in db.users && u2 in db.users && IsNotFriendsPair(db.friends, (u1, u2))
                     && x == PairOf((u1, u2))
  }

  /** View NotFriends: every ordered pair of users the Friends table does not list as such. */
  function NotFriends(db: Database): (r: seq<PairRow>)
    ensures forall x :: x in r <==> IsNotFriendsRow(db, x)
  {
    var pairs := Filter(Product(db.users, db.users), (p: (User, User)) => IsNotFriendsPair(db.friends, p));
    MapSeqMembers(pairs, PairOf);
    var r := MapSeq(pairs, PairOf);
    assert forall x :: x in r ==> IsNotFriendsRow(db, x) by {
      forall x | x in r ensures IsNotFriendsRow(db, x) {
        var p :| p in pairs && PairOf(p) == x;
        assert p == (p.0, p.1);
      }
    }
    assert forall x :: IsNotFriendsRow(db, x) ==> x in r by {
      forall x | IsNotFriendsRow(db, x) ensures x in r {
        var u1, u2 :| u1 in db.users && u2 in db.users && IsNotFriendsPair(db.friends, (u1, u2))
                      && x == PairOf((u1, u2));
        assert (u1, u2) in pairs;
      }
    }
    r
  }

  /**
   * The condition of view PairGroup: F1 and F2 link `a` and `b` through a third user, in one of
   * four layouts of the two Friends rows.
   */
  predicate MutualJoin(a: int, b: int, f1: Friendship, f2: Friendship) {
    || (a == f1.user1 && f1.user2 == f2.user1 && b == f2.user2)
    || (a == f1.user2 && f1.user1 == f2.user1 && b == f2.user2)
    || (a == f1.user1 && f1.user2 == f2.user2 && b == f2.user1)
    || (a == f1.user2 && f1.user1 == f2.user1 && b == f2.user1)
  }

  predicate IsMutualMatch(a: int, b: int, p: (Friendship, Friendship)) {
    MutualJoin(a, b, p.0, p.1)
  }

  /** The (F1, F2) rows view PairGroup joins with a NotFriends row of ids `a` and `b`. */
  function MutualMatches(friends: seq<Friendship>, a: int, b: int): (r: seq<(Friendship, Friendship)>)
    ensures forall p :: p in r <==> p.0 in friends && p.1 in friends && MutualJoin(a, b, p.0, p.1)
  {
    Filter(Product(friends, friends), (p: (Friendship, Friendship)) => IsMutualMatch(a, b, p))
  }

  /** A row of the grouped statement: a NotFriends pair and its COUNT(*) as `mutuals`. */
  datatype Suggestion = Suggestion(pair: PairRow, mutuals: nat)

  /**
   * COUNT(*) of the group of NotFriends row `nf` in view PairGroup: every copy of `nf` in
   * NotFriends joins with every matching (F1, F2).
   */
  function PairGroupCount(db: Database, nf: PairRow): nat {
    var copies := Count(NotFriends(db), nf);
    var matches := |MutualMatches(db.friends, nf.user1.id, nf.user2.id)|;
    NatProduct(copies, matches);
    copies * matches
  }

  predicate HasMutualMatch(db: Database, nf: PairRow) {
    MutualMatches(db.friends, nf.user1.id, nf.user2.id) != []
  }

  function SuggestionOf(db: Database, nf: PairRow): Suggestion {
    Suggestion(nf, PairGroupCount(db, nf))
  }

  /** The grouped statement over view PairGroup, before ordering. */
  function SuggestionGroups(db: Database): (g: seq<Suggestion>)
    ensures forall s :: s in g <==>
              s.pair in NotFriends(db) && HasMutualMatch(db, s.pair) && s.mutuals == PairGroupCount(db, s.pair)
    ensures Distinct(g)
  {
    var pairs := Filter(Dedup(NotFriends(db)), (nf: PairRow) => HasMutualMatch(db, nf));
    MapSeqMembers(pairs, (nf: PairRow) => SuggestionOf(db, nf));
    MapSeqDistinct(pairs, (nf: PairRow) => SuggestionOf(db, nf));
    MapSeq(pairs, (nf: PairRow) => SuggestionOf(db, nf))
  }

  /** Sort key of `ORDER BY mutuals DESC, PG.user1 ASC`; the order of `user2` is left open. */
  function SuggestionKey(s: Suggestion): seq<int> {
    [-(s.mutuals as int), s.pair.user1.id]
  }

  /**
   * `rows` is a result `... WHERE ROWNUM <= num` may return over the groups `groups`: the
   * first `num` rows of some order of the groups that satisfies the ORDER BY.
   */
  ghost predicate IsTopSuggestions(groups: seq<Suggestion>, num: int, rows: seq<Suggestion>) {
    exists ranked :: IsOrderingOf(ranked, groups, SuggestionKey) && rows == Take(ranked, num)
  }

  /** The results the ranking statement may return. */
  ghost predicate IsSuggestionResult(db: Database, num: int, rows: seq<Suggestion>) {
    IsTopSuggestions(SuggestionGroups(db), num, rows)
  }

  /** One such result: the groups sorted stably in the order the view lists them. */
  function SomeSuggestionResult(db: Database, num: int): (rows: seq<Suggestion>)
    ensures IsSuggestionResult(db, num, rows)
  {
    var ranked := SortByKey(SuggestionGroups(db), SuggestionKey);
    SortByKeyIsOrdering(SuggestionGroups(db), SuggestionKey);
    Take(ranked, num)
  }

  /**
   * Every admissible result: at most `num` distinct groups, by descending count and then
   * ascending first id, and no group left out ranks above one kept.
   */
  lemma TopSuggestionsFacts(groups: seq<Suggestion>, num: int, rows: seq<Suggestion>)
    requires Distinct(groups) && IsTopSuggestions(groups, num, rows)
    ensures |rows| == Cap(num, |groups|)
    ensures forall s :: s in rows ==> s in groups
    ensures Distinct(rows)
    ensures forall i, j :: 0 <= i < j < |rows| ==>
              rows[i].mutuals > rows[j].mutuals
              || (rows[i].mutuals == rows[j].mutuals && rows[i].pair.user1.id <= rows[j].pair.user1.id)
    ensures forall kept, omitted :: kept in rows && omitted in groups && omitted !in rows ==>
              kept.mutuals > omitted.mutuals
              || (kept.mutuals == omitted.mutuals && kept.pair.user1.id <= omitted.pair.user1.id)
  {
    var ranked :| IsOrderingOf(ranked, groups, SuggestionKey) && rows == Take(ranked, num);
    OrderingFacts(ranked, groups, SuggestionKey);
    assert rows == ranked[..|rows|];
    forall i, j | 0 <= i < j < |rows|
      ensures rows[i].mutuals > rows[j].mutuals
              || (rows[i].mutuals == rows[j].mutuals && rows[i].pair.user1.id <= rows[j].pair.user1.id)
    {
      assert LexLe(SuggestionKey(ranked[i]), SuggestionKey(ranked[j]));
      LexLe2(-(rows[i].mutuals as int), rows[i].pair.user1.id, -(rows[j].mutuals as int), rows[j].pair.user1.id);
    }
    forall kept, omitted | kept in rows && omitted in groups && omitted !in rows
      ensures kept.mutuals > omitted.mutuals
              || (kept.mutuals == omitted.mutuals && kept.pair.user1.id <= omitted.pair.user1.id)
    {
      TakeKeepsTop(ranked, SuggestionKey, num, kept, omitted);
      LexLe2(-(kept.mutuals as int), kept.pair.user1.id, -(omitted.mutuals as int), omitted.pair.user1.id);
    }
  }

  /** The Friends row the store keeps for the friendship of `x` and `y`. */
  function Edge(x: int, y: int): Friendship {
    if x < y then Friendship(x, y) else Friendship(y, x)
  }

  /** The member of friendship row `f` other than `a`. */
  function Other(a: int, f: Friendship): int {
    if f.user1 == a then f.user2 else f.user1
  }

  /** With canonical rows, two users are friends exactly when their edge is stored. */
  lemma CanonicalEdge(friends: seq<Friendship>, x: int, y: int)
    requires CanonicalFriends(friends)
    ensures AreFriends(friends, x, y) <==> x != y && Edge(x, y) in friends
  {
    if AreFriends(friends, x, y) {
      var f :| f in friends && ((f.user1 == x && f.user2 == y) || (f.user1 == y && f.user2 == x));
      assert f == Edge(x, y);
    }
    if x != y && Edge(x, y) in friends {
      var e := Edge(x, y);
      assert IsFriendRow(friends, e.user1, e.user2);
    }
  }

  /**
   * With canonical rows and `a < b`, a match of view PairGroup is the pair of edges that
   * join a third user to `a` and to `b`; the fourth layout never occurs.
   */
  lemma MatchShape(friends: seq<Friendship>, a: int, b: int, p: (Friendship, Friendship))
    requires CanonicalFriends(friends) && a < b
    requires p in MutualMatches(friends, a, b)
    ensures p.0 == Edge(a, Other(a, p.0)) && p.1 == Edge(b, Other(a, p.0))
    ensures AreFriends(friends, a, Other(a, p.0)) && AreFriends(friends, b, Other(a, p.0))
  {
    var c := Other(a, p.0);
    assert p.0.user1 < p.0.user2 && p.1.user1 < p.1.user2;
    CanonicalEdge(friends, a, c);
    CanonicalEdge(friends, b, c);
  }

  /** Conversely, each mutual friend `c` of `a` and `b` yields one match. */
  lemma MutualFriendMatch(friends: seq<Friendship>, a: int, b: int, c: int)
    requires CanonicalFriends(friends) && a < b
    requires AreFriends(friends, a, c) && AreFriends(friends, b, c)
    ensures (Edge(a, c), Edge(b, c)) in MutualMatches(friends, a, b)
    ensures Other(a, Edge(a, c)) == c
  {
    CanonicalEdge(friends, a, c);
    CanonicalEdge(friends, b, c);
  }

  /** The ids that occur in the Friends table. */
  function FriendTableIds(friends: seq<Friendship>): (ids: seq<int>)
    ensures forall f :: f in friends ==> f.user1 in ids && f.user2 in ids
  {
    MapSeqMembers(friends, (f: Friendship) => f.user1);
    MapSeqMembers(friends, (f: Friendship) => f.user2);
    MapSeq(friends, (f: Friendship) => f.user1) + MapSeq(friends, (f: Friendship) => f.user2)
  }

  /** Reference definition: the distinct users who are friends with both `a` and `b`. */
  function MutualFriendIds(friends: seq<Friendship>, a: int, b: int): (r: seq<int>)
    ensures forall c :: c in r <==> AreFriends(friends, a, c) && AreFriends(friends, b, c)
    ensures Distinct(r)
  {
    var ids := FriendTableIds(friends);
    var r := Dedup(Filter(ids, (c: int) => AreFriends(friends, a, c) && AreFriends(friends, b, c)));
    assert forall c :: AreFriends(friends, a, c) ==> c in ids by {
      forall c | AreFriends(friends, a, c) ensures c in ids {
        var f :| f in friends && ((f.user1 == a && f.user2 == c) || (f.user1 == c && f.user2 == a));
      }
    }
    r
  }

  /**
   * With canonical rows, the number of PairGroup matches of `a < b` is the number of their
   * mutual friends.
   */
  lemma MatchCountIsMutualFriendCount(friends: seq<Friendship>, a: int, b: int)
    requires CanonicalFriends(friends) && a < b
    ensures |MutualMatches(friends, a, b)| == |MutualFriendIds(friends, a, b)|
  {
    var mm := MutualMatches(friends, a, b);
    var third := (p: (Friendship, Friendship)) => Other(a, p.0);
    ProductDistinct(friends, friends);
    assert Distinct(mm);
    forall p, q | p in mm && q in mm && third(p) == third(q) ensures p == q {
      MatchShape(friends, a, b, p);
      MatchShape(friends, a, b, q);
    }
    MapSeqDistinct(mm, third);
    MapSeqMembers(mm, third);
    var ts := MapSeq(mm, third);
    forall c ensures c in ts <==> c in MutualFriendIds(friends, a, b) {
      if c in ts {
        var p :| p in mm && third(p) == c;
        MatchShape(friends, a, b, p);
      }
      if AreFriends(friends, a, c) && AreFriends(friends, b, c) {
        MutualFriendMatch(friends, a, b, c);
        assert third((Edge(a, c), Edge(b, c))) == c;
      }
    }
    DistinctSameMembersSameLength(ts, MutualFriendIds(friends, a, b));
  }

  /** With User_ID a key, view NotFriends holds no row twice. */
  lemma NotFriendsDistinct(db: Database)
    requires UniqueUserIds(db.users)
    ensures Distinct(NotFriends(db))
  {
    var pairs := Filter(Product(db.users, db.users), (p: (User, User)) => IsNotFriendsPair(db.friends, p));
    if db.users != [] {
      SameIdSameUser(db.users, db.users[0], db.users[0]);
    }
    ProductDistinct(db.users, db.users);
    forall p, q | p in pairs && q in pairs && PairOf(p) == PairOf(q) ensures p == q {
      SameIdSameUser(db.users, p.0, q.0);
      SameIdSameUser(db.users, p.1, q.1);
    }
    MapSeqDistinct(pairs, PairOf);
  }

  /** With User_ID a key, every NotFriends row occurs once. */
  lemma NotFriendsOnce(db: Database, nf: PairRow)
    requires UniqueUserIds(db.users) && nf in NotFriends(db)
    ensures Count(NotFriends(db), nf) == 1
  {
    NotFriendsDistinct(db);
    CountDistinct(NotFriends(db), nf);
  }

  /** With canonical rows, every PairGroup match names a user who is friends with both. */
  lemma MatchGivesMutualFriend(friends: seq<Friendship>, a: int, b: int, p: (Friendship, Friendship))
    requires CanonicalFriends(friends) && a < b
    requires p in MutualMatches(friends, a, b)
    ensures exists c :: AreFriends(friends, a, c) && AreFriends(friends, b, c)
  {
    MatchShape(friends, a, b, p);
  }

  /** A suggested pair is a NotFriends pair: ordered by id and not a Friends row. */
  lemma SuggestionIsNotFriendsPair(db: Database, s: Suggestion)
    requires s in SuggestionGroups(db)
    ensures s.pair.user1.id < s.pair.user2.id
    ensures !IsFriendRow(db.friends, s.pair.user1.id, s.pair.user2.id)
  {
    var u1, u2 :| u1 in db.users && u2 in db.users && IsNotFriendsPair(db.friends, (u1, u2))
                  && s.pair == PairOf((u1, u2));
  }

  /** With canonical Friends rows, a suggested pair is not friends and has a mutual friend. */
  lemma SuggestionHasMutualFriend(db: Database, s: Suggestion)
    requires CanonicalFriends(db.friends) && s in SuggestionGroups(db)
    ensures !AreFriends(db.friends, s.pair.user1.id, s.pair.user2.id)
    ensures exists c :: AreFriends(db.friends, s.pair.user1.id, c) && AreFriends(db.friends, s.pair.user2.id, c)
  {
    var a, b := s.pair.user1.id, s.pair.user2.id;
    SuggestionIsNotFriendsPair(db, s);
    assert !IsFriendRow(db.friends, b, a);
    var mm := MutualMatches(db.friends, a, b);
    assert HasMutualMatch(db, s.pair);
    assert mm[0] in mm;
    MatchGivesMutualFriend(db.friends, a, b, mm[0]);
  }

  /**
   * With User_ID a key and canonical Friends rows, the count of a suggested pair is the
   * number of its mutual friends.
   */
  lemma SuggestionCountIsMutualFriends(db: Database, s: Suggestion)
    requires UniqueUserIds(db.users) && CanonicalFriends(db.friends) && s in SuggestionGroups(db)
    ensures s.mutuals == |MutualFriendIds(db.friends, s.pair.user1.id, s.pair.user2.id)|
  {
    var a, b := s.pair.user1.id, s.pair.user2.id;
    SuggestionIsNotFriendsPair(db, s);
    assert s.pair in NotFriends(db) && s.mutuals == PairGroupCount(db, s.pair);
    NotFriendsOnce(db, s.pair);
    var matches := |MutualMatches(db.friends, a, b)|;
    assert PairGroupCount(db, s.pair) == 1 * matches;
    MatchCountIsMutualFriendCount(db.friends, a, b);
  }

  /**
   * With canonical rows and `a < b`, the users named by the first Friends row of the
   * PairGroup matches, other than `a` and `b`, are exactly the mutual friends.
   */
  lemma MatchMembersAreMutualFriends(friends: seq<Friendship>, a: int, b: int, id: int)
    requires CanonicalFriends(friends) && a < b
    ensures (id != a && id != b && exists p :: p in MutualMatches(friends, a, b) && (id == p.0.user1 || id == p.0.user2))
            <==> AreFriends(friends, a, id) && AreFriends(friends, b, id)
  {
    if id != a && id != b && exists p :: p in MutualMatches(friends, a, b) && (id == p.0.user1 || id == p.0.user2) {
      var p :| p in MutualMatches(friends, a, b) && (id == p.0.user1 || id == p.0.user2);
      MatchShape(friends, a, b, p);
      assert id == Other(a, p.0);
    }
    if AreFriends(friends, a, id) && AreFriends(friends, b, id) {
      CanonicalEdge(friends, a, id);
      CanonicalEdge(friends, b, id);
      MutualFriendMatch(friends, a, b, id);
      var p := (Edge(a, id), Edge(b, id));
      assert id == p.0.user1 || id == p.0.user2;
    }
  }

  /**
   * A user in the shared-friend statement for the pair (`a`, `b`): some PairGroup row of the
   * pair names them as COMMON1 or COMMON2.
   */
  predicate InPairGroup(db: Database, a: int, b: int, id: int) {
    && (exists nf :: nf in NotFriends(db) && nf.user1.id == a && nf.user2.id == b)
    && (exists p :: p in MutualMatches(db.friends, a, b) && (id == p.0.user1 || id == p.0.user2))
  }

  predicate IsSharedFriend(db: Database, a: int, b: int, u: User) {
    u.id != a && u.id != b && InPairGroup(db, a, b, u.id)
  }

  /** Goal (B): `SELECT DISTINCT` the users of the pair's PairGroup rows other than the pair, by id. */
  function SharedFriends(db: Database, a: int, b: int): (r: seq<UserInfo>)
    ensures forall x :: x in r <==> exists u :: u in db.users && IsSharedFriend(db, a, b, u) && Info(u) == x
    ensures Distinct(r)
    ensures forall i, j :: 0 <= i < j < |r| ==> r[i].id <= r[j].id
  {
    var friends := Filter(db.users, (u: User) => IsSharedFriend(db, a, b, u));
    var infos := InfosOf(friends);
    assert forall x :: x in infos <==> exists u :: u in friends && Info(u) == x by {
      forall x | x in infos ensures exists u :: u in friends && Info(u) == x {
        var i :| 0 <= i < |friends| && infos[i] == x;
        assert friends[i] in friends;
      }
      forall u | u in friends ensures Info(u) in infos {
        var i :| 0 <= i < |friends| && friends[i] == u;
        assert infos[i] == Info(u);
      }
    }
    SortedDistinctInfos(infos)
  }

  /**
   * With canonical Friends rows, the shared friends of a suggested pair are exactly the
   * users who are friends with both.
   */
  lemma SharedFriendsAreMutualFriends(db: Database, s: Suggestion, u: User)
    requires CanonicalFriends(db.friends) && s in SuggestionGroups(db) && u in db.users
    ensures Info(u) in SharedFriends(db, s.pair.user1.id, s.pair.user2.id) <==>
              AreFriends(db.friends, s.pair.user1.id, u.id) && AreFriends(db.friends, s.pair.user2.id, u.id)
  {
    SuggestionIsNotFriendsPair(db, s);
    assert s.pair in NotFriends(db);
    SharedFriendsOfPair(db, s.pair.user1.id, s.pair.user2.id, u);
  }

  /** The same, for any pair `a < b` that view NotFriends holds. */
  lemma SharedFriendsOfPair(db: Database, a: int, b: int, u: User)
    requires CanonicalFriends(db.friends) && a < b && u in db.users
    requires exists nf :: nf in NotFriends(db) && nf.user1.id == a && nf.user2.id == b
    ensures Info(u) in SharedFriends(db, a, b) <==> AreFriends(db.friends, a, u.id) && AreFriends(db.friends, b, u.id)
  {
    MatchMembersAreMutualFriends(db.friends, a, b, u.id);
    assert IsSharedFriend(db, a, b, u) <==> AreFriends(db.friends, a, u.id) && AreFriends(db.friends, b, u.id);
    forall w | w in db.users && Info(w) == Info(u) ensures IsSharedFriend(db, a, b, w) == IsSharedFriend(db, a, b, u) {
      assert w.id == u.id;
    }
  }

  /** One entry of the answer for a row of goal (A). */
  function Entry(db: Database, s: Suggestion): UsersPair {
    UsersPair(s.pair.user1, s.pair.user2, SharedFriends(db, s.pair.user1.id, s.pair.user2.id))
  }

  /**
   * The whole query, given the rows the ranking statement returns (`rows`); a failure of
   * the store, from the creation of the views on, keeps the entries completed so far.
   */
  method FindSuggestions(db: Database, num: int, rows: seq<Suggestion>, failAt: FailurePoint)
    returns (results: seq<UsersPair>)
    requires IsSuggestionResult(db, num, rows)
    ensures |results| == |RowsBeforeFailure(rows, failAt)|
    ensures forall i :: 0 <= i < |results| ==> results[i] == Entry(db, rows[i])
    ensures |results| <= Cap(num, |SuggestionGroups(db)|)
  {
    TopSuggestionsFacts(SuggestionGroups(db), num, rows);
    results := CollectRows(rows, s => Entry(db, s), failAt);
  }
}
