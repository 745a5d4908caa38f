/**
 * Query 4, `findPhotosWithMostTags`: the `num` photos with the most tags, each with its album
 * and with the users tagged in it.
 */
module MostTagged {
  import opened Wrappers
  import opened Seqs
  import opened Ordering
  import opened Schema

  /** A photo of the answer together with the users tagged in it, by ascending id. */
  datatype TaggedPhotoInfo = TaggedPhotoInfo(photo: PhotoInfo, taggedUsers: seq<UserInfo>)

  /** A row of the grouped statement: a photo with its album, and its TAG_COUNT. */
  type PhotoGroup = Group<PhotoInfo>

  /** `x` is a photo of `Photos P JOIN Albums A ON P.ALBUM_ID = A.ALBUM_ID` with some tag. */
  predicate IsTaggedPhoto(db: Database, x: PhotoInfo) {
    && (exists p, a :: p in db.photos && a in db.albums && a.albumId == p.albumId && x == PhotoOf(p, a))
    && (exists t :: t in db.tags && t.photoId == x.photoId)
  }

  /**
   * Does a row of `Photos P JOIN Tags T ON P.PHOTO_ID = T.TAG_PHOTO_ID JOIN Albums A ON
   * P.ALBUM_ID = A.ALBUM_ID` match its join conditions? Rows are enumerated tag by tag, as
   * (tag, (photo, album)); as a bag they are the rows of the join.
   */
  predicate Joins(r: (Tag, (Photo, Album))) {
    r.0.photoId == r.1.0.photoId && r.1.1.albumId == r.1.0.albumId
  }

  function JoinedPhoto(r: (Tag, (Photo, Album))): PhotoInfo {
    PhotoOf(r.1.0, r.1.1)
  }

  /** The joined rows projected to the grouping columns: one entry per (photo, tag, album) match. */
  function TagJoin(db: Database): (rows: seq<PhotoInfo>)
    ensures forall x :: x in rows <==> IsTaggedPhoto(db, x)
  {
    var matches := Filter(Product(db.tags, Product(db.photos, db.albums)), Joins);
    MapSeqMembers(matches, JoinedPhoto);
    var rows := MapSeq(matches, JoinedPhoto);
    assert forall x :: IsTaggedPhoto(db, x) ==> x in rows by {
      forall x | IsTaggedPhoto(db, x) ensures x in rows {
        var p, a :| p in db.photos && a in db.albums && a.albumId == p.albumId && x == PhotoOf(p, a);
        var t :| t in db.tags && t.photoId == x.photoId;
        assert (t, (p, a)) in matches;
      }
    }
    rows
  }

  /** A row of the join that counts towards photo `x`: it matches and projects to `x`. */
  predicate JoinsAs(x: PhotoInfo, r: (Tag, (Photo, Album))) {
    Joins(r) && JoinedPhoto(r) == x
  }

  /**
   * With Photo_ID a key of Photos and Album_ID a key of Albums, the TAG_COUNT of a tagged
   * photo is its number of tags: the join produces one row per tag of the photo.
   */
  lemma TagCountIsTagRows(db: Database, x: PhotoInfo)
    requires UniquePhotoAndAlbumIds(db) && IsTaggedPhoto(db, x)
    ensures Count(TagJoin(db), x) == |Filter(db.tags, (t: Tag) => t.photoId == x.photoId)|
  {
    var pa := Product(db.photos, db.albums);
    var p0, a0 :| p0 in db.photos && a0 in db.albums && a0.albumId == p0.albumId && x == PhotoOf(p0, a0);
    var q := (r: (Tag, (Photo, Album))) => JoinsAs(x, r);
    var qx := (t: Tag) => t.photoId == x.photoId;
    PhotoAlbumPairs(db, x, p0, a0);
    assert forall t :: t in db.tags ==> (qx(t) <==> exists y :: y in pa && q((t, y))) by {
      forall t | t in db.tags ensures qx(t) <==> exists y :: y in pa && q((t, y)) {
        if qx(t) {
          assert (p0, a0) in pa && q((t, (p0, a0)));
        }
      }
    }
    JoinAtMostOne(db.tags, pa, q, qx);
    CountMappedFilter(Product(db.tags, pa), Joins, JoinedPhoto, x, q);
  }

  /** Under the keys, the only (photo, album) pair that joins as `x` is the one it came from. */
  lemma PhotoAlbumPairs(db: Database, x: PhotoInfo, p0: Photo, a0: Album)
    requires UniquePhotoAndAlbumIds(db)
    requires p0 in db.photos && a0 in db.albums && a0.albumId == p0.albumId && x == PhotoOf(p0, a0)
    ensures Distinct(Product(db.photos, db.albums))
    ensures forall t: Tag, y :: y in Product(db.photos, db.albums) && JoinsAs(x, (t, y)) ==> y == (p0, a0)
  {
    PhotoKeyDistinct(db);
    ProductDistinct(db.photos, db.albums);
    forall t: Tag, y | y in Product(db.photos, db.albums) && JoinsAs(x, (t, y)) ensures y == (p0, a0) {
      assert y.0.photoId == p0.photoId && y.1.albumId == a0.albumId;
    }
  }

  /** Keys make the tables duplicate-free. */
  lemma PhotoKeyDistinct(db: Database)
    requires UniquePhotoAndAlbumIds(db)
    ensures Distinct(db.photos) && Distinct(db.albums)
  {
    forall i, j | 0 <= i < j < |db.photos| ensures db.photos[i] != db.photos[j] {
      assert db.photos[i].photoId != db.photos[j].photoId;
    }
    forall i, j | 0 <= i < j < |db.albums| ensures db.albums[i] != db.albums[j] {
      assert db.albums[i].albumId != db.albums[j].albumId;
    }
  }

  /** Sort key of `ORDER BY TAG_COUNT DESC, P.PHOTO_ID ASC`. */
  function PhotoGroupKey(g: PhotoGroup): seq<int> {
    [-(g.count as int), g.value.photoId]
  }

  /** `ranked` is the grouped statement over the joined rows `rows`, ordered, before the cap. */
  ghost predicate IsRanking(rows: seq<PhotoInfo>, ranked: seq<PhotoGroup>) {
    && (forall g :: g in ranked <==> g.value in rows && g.count == Count(rows, g.value))
    && (forall i, j :: 0 <= i < j < |ranked| ==> ranked[i].value != ranked[j].value)
    && SortedBy(ranked, PhotoGroupKey)
  }

  function RankPhotos(rows: seq<PhotoInfo>): (ranked: seq<PhotoGroup>)
    ensures IsRanking(rows, ranked)
  {
    var groups := GroupCounts(rows);
    SortByKeyFacts(groups, PhotoGroupKey);
    var ranked := SortByKey(groups, PhotoGroupKey);
    assert forall g :: g in ranked <==> g.value in rows && g.count == Count(rows, g.value);
    assert forall i, j :: 0 <= i < j < |ranked| ==> ranked[i].value != ranked[j].value by {
      forall i, j | 0 <= i < j < |ranked| ensures ranked[i].value != ranked[j].value {
        assert ranked[i] != ranked[j];
        assert ranked[i] in ranked && ranked[j] in ranked;
      }
    }
    ranked
  }

  /** An ordered ranking lists more tags first, and smaller photo ids first among equal counts. */
  lemma RankingOrder(ranked: seq<PhotoGroup>, i: int, j: int)
    requires SortedBy(ranked, PhotoGroupKey) && 0 <= i < j < |ranked|
    ensures ranked[i].count > ranked[j].count || (ranked[i].count == ranked[j].count && ranked[i].value.photoId <= ranked[j].value.photoId)
  {
    LexLe2(-(ranked[i].count as int), ranked[i].value.photoId, -(ranked[j].count as int), ranked[j].value.photoId);
  }

  /** Goal (A): the grouped statement, ordered, capped at `num` rows. */
  function TopPhotos(db: Database, num: int): (r: seq<PhotoGroup>)
    ensures |r| == Cap(num, |RankPhotos(TagJoin(db))|)
    ensures forall g :: g in r ==> IsTaggedPhoto(db, g.value) && g.count == Count(TagJoin(db), g.value) && g.count >= 1
    ensures forall i, j :: 0 <= i < j < |r| ==>
              r[i].count > r[j].count || (r[i].count == r[j].count && r[i].value.photoId <= r[j].value.photoId)
    ensures forall i, j :: 0 <= i < j < |r| ==> r[i].value != r[j].value
  {
    var rows := TagJoin(db);
    var ranked := RankPhotos(rows);
    var r := Take(ranked, num);
    assert forall i, j :: 0 <= i < j < |r| ==>
             r[i].count > r[j].count || (r[i].count == r[j].count && r[i].value.photoId <= r[j].value.photoId) by {
      forall i, j | 0 <= i < j < |r|
        ensures r[i].count > r[j].count || (r[i].count == r[j].count && r[i].value.photoId <= r[j].value.photoId)
      {
        RankingOrder(ranked, i, j);
      }
    }
    assert forall g :: g in r ==> g in ranked;
    r
  }

  /**
   * The cap keeps the best photos: a tagged photo left out has no more tags than any photo
   * kept, and if it has as many, a photo id no smaller.
   */
  lemma NoOmittedPhotoOutranks(db: Database, num: int, kept: PhotoGroup, omitted: PhotoInfo)
    requires kept in TopPhotos(db, num)
    requires IsTaggedPhoto(db, omitted)
    requires forall g :: g in TopPhotos(db, num) ==> g.value != omitted
    ensures Count(TagJoin(db), omitted) <= kept.count
    ensures Count(TagJoin(db), omitted) == kept.count ==> kept.value.photoId <= omitted.photoId
  {
    var rows := TagJoin(db);
    var ranked := RankPhotos(rows);
    var o := Group(omitted, Count(rows, omitted));
    assert o in ranked;
    assert Distinct(ranked) by {
      forall i, j | 0 <= i < j < |ranked| ensures ranked[i] != ranked[j] {
        assert ranked[i].value != ranked[j].value;
      }
    }
    assert Take(ranked, num) == TopPhotos(db, num);
    TakeKeepsTop(ranked, PhotoGroupKey, num, kept, o);
    LexLe2(-(kept.count as int), kept.value.photoId, -(o.count as int), omitted.photoId);
  }

  /** User `u` is tagged in photo `photoId`. */
  predicate IsTaggedIn(db: Database, photoId: int, u: User) {
    exists t :: t in db.tags && t.photoId == photoId && t.subjectId == u.id
  }

  /** A row of `Tags T JOIN Users U ON T.TAG_SUBJECT_ID = U.USER_ID` for photo `photoId`? */
  predicate TagOf(photoId: int, r: (Tag, User)) {
    r.0.photoId == photoId && r.1.id == r.0.subjectId
  }

  function TaggedUser(r: (Tag, User)): User {
    r.1
  }

  /** The users of the tag join for photo `photoId`, one entry per tag, in table order. */
  function TagRows(db: Database, photoId: int): (us: seq<User>)
    ensures forall u :: u in us <==> u in db.users && IsTaggedIn(db, photoId, u)
  {
    var matches := Filter(Product(db.tags, db.users), (r: (Tag, User)) => TagOf(photoId, r));
    MapSeqMembers(matches, TaggedUser);
    var us := MapSeq(matches, TaggedUser);
    assert forall u :: u in db.users && IsTaggedIn(db, photoId, u) ==> u in us by {
      forall u | u in db.users && IsTaggedIn(db, photoId, u) ensures u in us {
        var t :| t in db.tags && t.photoId == photoId && t.subjectId == u.id;
        assert (t, u) in matches;
      }
    }
    us
  }

  /** Goal (B): the users tagged in photo `photoId`, one entry per tag, by ascending id. */
  function TaggedUsers(db: Database, photoId: int): (r: seq<UserInfo>)
    ensures forall x :: x in r <==> exists u :: u in db.users && IsTaggedIn(db, photoId, u) && Info(u) == x
    ensures forall i, j :: 0 <= i < j < |r| ==> r[i].id <= r[j].id
  {
    SortedInfos(TagRows(db, photoId))
  }

  /** One entry of the answer for a photo of goal (A). */
  function Entry(db: Database, g: PhotoGroup): TaggedPhotoInfo {
    TaggedPhotoInfo(g.value, TaggedUsers(db, g.value.photoId))
  }

  /**
   * The whole query: for each row of goal (A), in order, the photo and its tagged users; a
   * failure of the store keeps the entries completed so far.
   */
  method FindPhotosWithMostTags(db: Database, num: int, failAt: FailurePoint)
    returns (results: seq<TaggedPhotoInfo>)
    ensures |results| == |RowsBeforeFailure(TopPhotos(db, num), failAt)|
    ensures forall i :: 0 <= i < |results| ==> results[i] == Entry(db, TopPhotos(db, num)[i])
  {
    results := CollectRows(TopPhotos(db, num), g => Entry(db, g), failAt);
  }
}
