/**
 * Query 5, `matchMaker`: the top `num` pairs of users of the same gender, at most `yearDiff`
 * birth years apart, not friends, and tagged together in at least one photo; each pair with
 * the photos they share.
 */
module MatchMaker {
  import opened Wrappers
  import opened Seqs
  import opened Ordering
  import opened Schema

  /** An entry of the answer. */
  datatype MatchPair = MatchPair(
    user1: UserInfo,
    user1Year: int,
    user2: UserInfo,
    user2Year: int,
    sharedPhotos: seq<PhotoInfo>)

  /** A row of the grouped pair statement, with COMMON_PHOTOS. */
  datatype MatchRow = MatchRow(user1: UserInfo, year1: int, user2: UserInfo, year2: int, commonPhotos: nat)

  /** Both users are tagged in photo `photoId`. */
  predicate TaggedTogether(tags: seq<Tag>, id1: int, id2: int, photoId: int) {
    && (exists t :: t in tags && t.subjectId == id1 && t.photoId == photoId)
    && (exists t :: t in tags && t.subjectId == id2 && t.photoId == photoId)
  }

  /** The distinct TAG_PHOTO_IDs of the tag self-join for the pair (`id1`, `id2`). */
  function SharedPhotoIds(tags: seq<Tag>, id1: int, id2: int): (r: seq<int>)
    ensures forall pid :: pid in r <==> TaggedTogether(tags, id1, id2, pid)
    ensures Distinct(r)
  {
    var own := Filter(tags, (t: Tag) => t.subjectId == id1 && TaggedTogether(tags, id1, id2, t.photoId));
    MapSeqMembers(own, (t: Tag) => t.photoId);
    var r := Dedup(MapSeq(own, (t: Tag) => t.photoId));
    assert forall pid :: TaggedTogether(tags, id1, id2, pid) ==> pid in r by {
      forall pid | TaggedTogether(tags, id1, id2, pid) ensures pid in r {
        var t :| t in tags && t.subjectId == id1 && t.photoId == pid;
        assert t in own;
      }
    }
    r
  }

  /**
   * The join and filter of the pair statement for users `u1` and `u2`: equal genders (a NULL
   * gender equals nothing), known birth years at most `yearDiff` apart, `u1` first by id, no
   * friendship in either orientation, and some photo tagging both.
   */
  predicate IsCandidate(db: Database, yearDiff: int, u1: User, u2: User) {
    && u1.gender.Some? && u2.gender.Some? && u1.gender == u2.gender
    && u1.yearOfBirth.Some? && u2.yearOfBirth.Some?
    && Abs(u1.yearOfBirth.value - u2.yearOfBirth.value) <= yearDiff
    && u1.id < u2.id
    && !AreFriends(db.friends, u1.id, u2.id)
    && SharedPhotoIds(db.tags, u1.id, u2.id) != []
  }

  /** The group row of a candidate pair. */
  function RowOf(db: Database, u1: User, u2: User): MatchRow
    requires u1.yearOfBirth.Some? && u2.yearOfBirth.Some?
  {
    MatchRow(Info(u1), u1.yearOfBirth.value, Info(u2), u2.yearOfBirth.value,
             |SharedPhotoIds(db.tags, u1.id, u2.id)|)
  }

  /** `m` is the group row of some candidate pair. */
  predicate IsMatch(db: Database, yearDiff: int, m: MatchRow) {
    exists u1, u2 :: u1 in db.users && u2 in db.users && IsCandidate(db, yearDiff, u1, u2)
                     && m == RowOf(db, u1, u2)
  }

  predicate CandidatePair(db: Database, yearDiff: int, p: (User, User)) {
    IsCandidate(db, yearDiff, p.0, p.1)
  }

  /** The grouped pair statement before ordering: one row per group. */
  function MatchRows(db: Database, yearDiff: int): (rows: seq<MatchRow>)
    ensures forall m :: m in rows <==> IsMatch(db, yearDiff, m)
    ensures Distinct(rows)
  {
    var pairs := Filter(Product(db.users, db.users), (p: (User, User)) => CandidatePair(db, yearDiff, p));
    var rows := seq(|pairs|, i requires 0 <= i < |pairs| => RowOf(db, pairs[i].0, pairs[i].1));
    assert forall m :: m in rows <==> IsMatch(db, yearDiff, m) by {
      forall m | m in rows ensures IsMatch(db, yearDiff, m) {
        var i :| 0 <= i < |pairs| && rows[i] == m;
        assert pairs[i] in pairs;
      }
      forall m | IsMatch(db, yearDiff, m) ensures m in rows {
        var u1, u2 :| u1 in db.users && u2 in db.users && IsCandidate(db, yearDiff, u1, u2)
                      && m == RowOf(db, u1, u2);
        assert (u1, u2) in pairs;
        var i :| 0 <= i < |pairs| && pairs[i] == (u1, u2);
        assert rows[i] == m;
      }
    }
    Dedup(rows)
  }

  /** Sort key of `ORDER BY COMMON_PHOTOS DESC, U1.USER_ID ASC, U2.USER_ID ASC`. */
  function MatchKey(m: MatchRow): seq<int> {
    [-(m.commonPhotos as int), m.user1.id, m.user2.id]
  }

  /** The grouped pair statement ordered, before the cap. */
  function RankedMatches(db: Database, yearDiff: int): (r: seq<MatchRow>)
    ensures forall m :: m in r <==> IsMatch(db, yearDiff, m)
    ensures Distinct(r) && SortedBy(r, MatchKey)
    ensures |r| == |MatchRows(db, yearDiff)|
  {
    SortByKeyFacts(MatchRows(db, yearDiff), MatchKey);
    SortByKey(MatchRows(db, yearDiff), MatchKey)
  }

  /** What a group row says about its pair. */
  lemma MatchRowFacts(db: Database, yearDiff: int, m: MatchRow)
    requires IsMatch(db, yearDiff, m)
    ensures m.user1.id < m.user2.id
    ensures Abs(m.year1 - m.year2) <= yearDiff
    ensures !AreFriends(db.friends, m.user1.id, m.user2.id)
    ensures m.commonPhotos == |SharedPhotoIds(db.tags, m.user1.id, m.user2.id)| >= 1
    ensures exists u1, u2 :: u1 in db.users && u2 in db.users && Info(u1) == m.user1 && Info(u2) == m.user2
                             && u1.gender.Some? && u1.gender == u2.gender
  {
    var u1, u2 :| u1 in db.users && u2 in db.users && IsCandidate(db, yearDiff, u1, u2)
                  && m == RowOf(db, u1, u2);
  }

  /** Goal (A): the ordered pairs, capped at `num`. */
  function TopMatches(db: Database, num: int, yearDiff: int): (r: seq<MatchRow>)
    ensures |r| == Cap(num, |MatchRows(db, yearDiff)|)
    ensures forall m :: m in r ==> IsMatch(db, yearDiff, m)
    ensures Distinct(r)
    ensures forall i, j :: 0 <= i < j < |r| ==>
              || r[i].commonPhotos > r[j].commonPhotos
              || (r[i].commonPhotos == r[j].commonPhotos && r[i].user1.id < r[j].user1.id)
              || (r[i].commonPhotos == r[j].commonPhotos && r[i].user1.id == r[j].user1.id
                  && r[i].user2.id <= r[j].user2.id)
  {
    var ranked := RankedMatches(db, yearDiff);
    var r := Take(ranked, num);
    assert r == ranked[..|r|];
    assert Distinct(r);
    assert forall i, j :: 0 <= i < j < |r| ==>
              || r[i].commonPhotos > r[j].commonPhotos
              || (r[i].commonPhotos == r[j].commonPhotos && r[i].user1.id < r[j].user1.id)
              || (r[i].commonPhotos == r[j].commonPhotos && r[i].user1.id == r[j].user1.id
                  && r[i].user2.id <= r[j].user2.id) by {
      forall i, j | 0 <= i < j < |r|
        ensures || r[i].commonPhotos > r[j].commonPhotos
                || (r[i].commonPhotos == r[j].commonPhotos && r[i].user1.id < r[j].user1.id)
                || (r[i].commonPhotos == r[j].commonPhotos && r[i].user1.id == r[j].user1.id
                    && r[i].user2.id <= r[j].user2.id)
      {
        assert LexLe(MatchKey(ranked[i]), MatchKey(ranked[j]));
        LexLe3(-(r[i].commonPhotos as int), r[i].user1.id, r[i].user2.id,
               -(r[j].commonPhotos as int), r[j].user1.id, r[j].user2.id);
      }
    }
    r
  }

  /** The cap keeps the best pairs: no pair left out sorts before a pair kept. */
  lemma NoOmittedMatchOutranks(db: Database, num: int, yearDiff: int, kept: MatchRow, omitted: MatchRow)
    requires kept in TopMatches(db, num, yearDiff)
    requires IsMatch(db, yearDiff, omitted) && omitted !in TopMatches(db, num, yearDiff)
    ensures kept.commonPhotos >= omitted.commonPhotos
    ensures kept.commonPhotos == omitted.commonPhotos ==> kept.user1.id <= omitted.user1.id
    ensures kept.commonPhotos == omitted.commonPhotos && kept.user1.id == omitted.user1.id ==>
              kept.user2.id <= omitted.user2.id
  {
    var ranked := RankedMatches(db, yearDiff);
    assert Take(ranked, num) == TopMatches(db, num, yearDiff);
    TakeKeepsTop(ranked, MatchKey, num, kept, omitted);
    LexLe3(-(kept.commonPhotos as int), kept.user1.id, kept.user2.id,
           -(omitted.commonPhotos as int), omitted.user1.id, omitted.user2.id);
  }

  /** The photo-and-album rows of the shared-photo statement for the pair (`id1`, `id2`). */
  predicate SharedRow(db: Database, id1: int, id2: int, pa: (Photo, Album)) {
    pa.1.albumId == pa.0.albumId && id1 != id2 && TaggedTogether(db.tags, id1, id2, pa.0.photoId)
  }

  function SharedInfo(pa: (Photo, Album)): PhotoInfo {
    PhotoOf(pa.0, pa.1)
  }

  /** A photo (with its album) in which both users are tagged. */
  predicate IsSharedPhoto(db: Database, id1: int, id2: int, x: PhotoInfo) {
    exists p, a :: p in db.photos && a in db.albums && a.albumId == p.albumId
                   && TaggedTogether(db.tags, id1, id2, p.photoId) && x == PhotoOf(p, a)
  }

  function PhotoIdKey(x: PhotoInfo): seq<int> {
    [x.photoId]
  }

  /**
   * Goal (B): `SELECT DISTINCT` photo and album of every photo tagging both users (the tag
   * self-join requires two different subjects), by ascending photo id.
   */
  function SharedPhotos(db: Database, id1: int, id2: int): (r: seq<PhotoInfo>)
    ensures forall x :: x in r <==> id1 != id2 && IsSharedPhoto(db, id1, id2, x)
    ensures Distinct(r)
    ensures forall i, j :: 0 <= i < j < |r| ==> r[i].photoId <= r[j].photoId
  {
    var matches := Filter(Product(db.photos, db.albums), (pa: (Photo, Album)) => SharedRow(db, id1, id2, pa));
    MapSeqMembers(matches, SharedInfo);
    var infos := Dedup(MapSeq(matches, SharedInfo));
    assert forall x :: x in infos <==> id1 != id2 && IsSharedPhoto(db, id1, id2, x) by {
      forall x | id1 != id2 && IsSharedPhoto(db, id1, id2, x) ensures x in infos {
        var p, a :| p in db.photos && a in db.albums && a.albumId == p.albumId
                    && TaggedTogether(db.tags, id1, id2, p.photoId) && x == PhotoOf(p, a);
        assert (p, a) in matches;
      }
    }
    SortByKeyFacts(infos, PhotoIdKey);
    var r := SortByKey(infos, PhotoIdKey);
    assert forall i, j :: 0 <= i < j < |r| ==> r[i].photoId <= r[j].photoId by {
      forall i, j | 0 <= i < j < |r| ensures r[i].photoId <= r[j].photoId {
        LexLeCons(r[i].photoId, [], r[j].photoId, []);
        assert PhotoIdKey(r[i]) == [r[i].photoId] + [] && PhotoIdKey(r[j]) == [r[j].photoId] + [];
      }
    }
    r
  }

  /** One entry of the answer for a row of goal (A). */
  function Entry(db: Database, m: MatchRow): MatchPair {
    MatchPair(m.user1, m.year1, m.user2, m.year2, SharedPhotos(db, m.user1.id, m.user2.id))
  }

  /** The whole query; a failure of the store keeps the entries completed so far. */
  method FindMatches(db: Database, num: int, yearDiff: int, failAt: FailurePoint)
    returns (results: seq<MatchPair>)
    ensures |results| == |RowsBeforeFailure(TopMatches(db, num, yearDiff), failAt)|
    ensures forall i :: 0 <= i < |results| ==> results[i] == Entry(db, TopMatches(db, num, yearDiff)[i])
  {
    results := CollectRows(TopMatches(db, num, yearDiff), m => Entry(db, m), failAt);
  }
}
