/**
 * The Fakebook store as in-memory tables (one sequence of records per table, in storage
 * order), the records the queries return, and the lookups and store invariants the queries
 * share.
 */
module Schema {
  import opened Wrappers
  import opened Seqs
  import opened Ordering

  /** A row of the Users table. Names are NOT NULL; gender and every birth-date part may be NULL. */
  datatype User = User(
    id: int,
    firstName: string,
    lastName: string,
    gender: Option<string>,
    yearOfBirth: Option<int>,
    monthOfBirth: Option<int>,
    dayOfBirth: Option<int>)

  /** A row of the Friends table; the store keeps each friendship once, smaller id first. */
  datatype Friendship = Friendship(user1: int, user2: int)

  datatype City = City(cityId: int, cityName: string, stateName: string, countryName: string)

  /** A row of the User_Current_Cities or of the User_Hometown_Cities table. */
  datatype UserCity = UserCity(userId: int, cityId: int)

  datatype Album = Album(albumId: int, ownerId: int, albumName: string)

  datatype Photo = Photo(photoId: int, albumId: int, link: string)

  /** A row of the Tags table: user `subjectId` appears in photo `photoId`. */
  datatype Tag = Tag(photoId: int, subjectId: int)

  /** The columns of the User_Events table that the queries read. */
  datatype Event = Event(eventId: int, cityId: int)

  datatype Database = Database(
    users: seq<User>,
    friends: seq<Friendship>,
    cities: seq<City>,
    currentCities: seq<UserCity>,
    hometownCities: seq<UserCity>,
    albums: seq<Album>,
    photos: seq<Photo>,
    tags: seq<Tag>,
    events: seq<Event>)

  /** Result records: a user, and a photo together with the name of its album. */
  datatype UserInfo = UserInfo(id: int, firstName: string, lastName: string)

  datatype PhotoInfo = PhotoInfo(photoId: int, albumId: int, link: string, albumName: string)

  function Info(u: User): UserInfo {
    UserInfo(u.id, u.firstName, u.lastName)
  }

  /** A photo with the name of an album (the album its ALBUM_ID names, in a join). */
  function PhotoOf(p: Photo, a: Album): PhotoInfo {
    PhotoInfo(p.photoId, p.albumId, p.link, a.albumName)
  }

  function Abs(x: int): nat {
    if x < 0 then -x else x
  }

  /** The users projected to (User_ID, First_Name, Last_Name), in table order. */
  function InfosOf(users: seq<User>): (r: seq<UserInfo>)
    ensures |r| == |users|
    ensures forall i :: 0 <= i < |users| ==> r[i] == Info(users[i])
  {
    seq(|users|, i requires 0 <= i < |users| => Info(users[i]))
  }

  /** Sort key of `ORDER BY User_ID`. */
  function IdKey(x: UserInfo): seq<int> {
    [x.id]
  }

  /** Ascending, each id once. */
  ghost predicate StrictlyAscendingIds(s: seq<UserInfo>) {
    forall i, j :: 0 <= i < j < |s| ==> s[i].id < s[j].id
  }

  /** Rows sorted by `IdKey` are ascending by id, strictly when their keys differ. */
  lemma IdOrder(r: seq<UserInfo>)
    requires SortedBy(r, IdKey)
    ensures forall i, j :: 0 <= i < j < |r| ==> r[i].id <= r[j].id
    ensures KeysDistinct(r, IdKey) ==> StrictlyAscendingIds(r)
  {
    forall i, j | 0 <= i < j < |r| ensures r[i].id <= r[j].id {
      LexLeCons(r[i].id, [], r[j].id, []);
      assert IdKey(r[i]) == [r[i].id] + [] && IdKey(r[j]) == [r[j].id] + [];
    }
    if KeysDistinct(r, IdKey) {
      forall i, j | 0 <= i < j < |r| ensures r[i].id < r[j].id {
        assert IdKey(r[i]) != IdKey(r[j]);
      }
    }
  }

  /** The projection of the users holds exactly their records. */
  lemma InfosOfMembers(users: seq<User>)
    ensures forall x :: x in InfosOf(users) <==> exists u :: u in users && Info(u) == x
    ensures UniqueUserIds(users) ==> KeysDistinct(InfosOf(users), IdKey)
  {
    var infos := InfosOf(users);
    forall x | x in infos ensures exists u :: u in users && Info(u) == x {
      var i :| 0 <= i < |infos| && infos[i] == x;
      assert users[i] in users;
    }
    forall u | u in users ensures Info(u) in infos {
      var i :| 0 <= i < |users| && users[i] == u;
      assert infos[i] == Info(u);
    }
  }

  /** `SELECT User_ID, First_Name, Last_Name ... ORDER BY User_ID` over the rows `users`. */
  function SortedInfos(users: seq<User>): (r: seq<UserInfo>)
    ensures |r| == |users|
    ensures forall x :: x in r <==> exists u :: u in users && Info(u) == x
    ensures forall i, j :: 0 <= i < j < |r| ==> r[i].id <= r[j].id
    ensures UniqueUserIds(users) ==> StrictlyAscendingIds(r)
  {
    var infos := InfosOf(users);
    InfosOfMembers(users);
    SortByKeyFacts(infos, IdKey);
    var r := SortByKey(infos, IdKey);
    IdOrder(r);
    r
  }

  /** `SELECT DISTINCT User_ID, First_Name, Last_Name ... ORDER BY User_ID` over the rows `infos`. */
  function SortedDistinctInfos(infos: seq<UserInfo>): (r: seq<UserInfo>)
    ensures forall x :: x in r <==> x in infos
    ensures Distinct(r)
    ensures forall i, j :: 0 <= i < j < |r| ==> r[i].id <= r[j].id
  {
    var d := Dedup(infos);
    SortByKeyFacts(d, IdKey);
    var r := SortByKey(d, IdKey);
    IdOrder(r);
    r
  }

  /** Different records drawn from a table whose User_ID is a key carry different ids. */
  lemma DistinctInfosHaveDistinctIds(users: seq<User>, r: seq<UserInfo>)
    requires UniqueUserIds(users) && Distinct(r)
    requires forall x :: x in r ==> exists u :: u in users && Info(u) == x
    ensures forall i, j :: 0 <= i < j < |r| ==> r[i].id != r[j].id
  {
    forall i, j | 0 <= i < j < |r| ensures r[i].id != r[j].id {
      assert r[i] in r && r[j] in r;
      var u :| u in users && Info(u) == r[i];
      var w :| w in users && Info(w) == r[j];
      var a :| 0 <= a < |users| && users[a] == u;
      var b :| 0 <= b < |users| && users[b] == w;
      assert a != b;
    }
  }

  /** Code points of a string: `ORDER BY` on a name compares these (binary collation). */
  function Codes(s: string): (c: seq<int>)
    ensures |c| == |s|
    ensures forall i :: 0 <= i < |s| ==> c[i] == s[i] as int
  {
    seq(|s|, i requires 0 <= i < |s| => s[i] as int)
  }

  /** Sort key of a nullable number in ascending order: Oracle puts NULL after every value. */
  function NullsLast(v: Option<int>): (k: seq<int>)
    ensures |k| == 2
  {
    match v
    case Some(x) => [0, x]
    case None => [1, 0]
  }

  /** The exact row (x, y) is in the Friends table. */
  predicate IsFriendRow(friends: seq<Friendship>, x: int, y: int) {
    exists f :: f in friends && f.user1 == x && f.user2 == y
  }

  /** `x` and `y` are friends, whichever of them the store lists first. */
  predicate AreFriends(friends: seq<Friendship>, x: int, y: int) {
    IsFriendRow(friends, x, y) || IsFriendRow(friends, y, x)
  }

  /** Store invariant: User_ID is a key of Users. */
  ghost predicate UniqueUserIds(users: seq<User>) {
    forall i, j :: 0 <= i < j < |users| ==> users[i].id != users[j].id
  }

  /** With User_ID a key, an id names one user, and no user occurs twice. */
  lemma SameIdSameUser(users: seq<User>, u: User, v: User)
    requires UniqueUserIds(users) && u in users && v in users && u.id == v.id
    ensures u == v
    ensures Distinct(users)
  {
  }

  /** Store invariant: each friendship once, smaller id first (so no self-pairs). */
  ghost predicate CanonicalFriends(friends: seq<Friendship>) {
    Distinct(friends) && forall f :: f in friends ==> f.user1 < f.user2
  }

  /** Store invariant: Photo_ID is a key of Photos and Album_ID a key of Albums. */
  ghost predicate UniquePhotoAndAlbumIds(db: Database) {
    && (forall i, j :: 0 <= i < j < |db.photos| ==> db.photos[i].photoId != db.photos[j].photoId)
    && (forall i, j :: 0 <= i < j < |db.albums| ==> db.albums[i].albumId != db.albums[j].albumId)
  }

  /** Store invariant: City_ID is a key of Cities. */
  ghost predicate UniqueCityIds(cities: seq<City>) {
    forall i, j :: 0 <= i < j < |cities| ==> cities[i].cityId != cities[j].cityId
  }

  /** Keeping only some users keeps User_ID a key. */
  lemma {:induction false} FilterUniqueIds(users: seq<User>, p: User -> bool)
    ensures UniqueUserIds(users) ==> UniqueUserIds(Filter(users, p))
  {
    if users != [] && UniqueUserIds(users) {
      FilterUniqueIds(users[1..], p);
      var rest := Filter(users[1..], p);
      forall k | 0 <= k < |rest| ensures rest[k].id != users[0].id {
        assert rest[k] in users[1..];
      }
    }
  }

  /**
   * Where the store fails. `None`: it does not. `Some(k)`: it raises a data-access failure
   * while the k-th row of the query's outer result is being handled (0: before any row, while
   * the statement or a scratch view is created).
   */
  type FailurePoint = Option<nat>

  /** The rows a list query has added to its `results` when the failure strikes. */
  function RowsBeforeFailure<T>(rows: seq<T>, failAt: FailurePoint): (r: seq<T>)
    ensures failAt == None ==> r == rows
    ensures failAt.Some? ==> |r| == (if failAt.value < |rows| then failAt.value else |rows|)
    ensures r == rows[..|r|]
  {
    match failAt
    case None => rows
    case Some(k) => if k < |rows| then rows[..k] else rows
  }

  /**
   * The loop shared by the list queries: each row of the statement becomes one entry of
   * `results`; when the store fails at row k the loop stops and `results` keeps what it has.
   */
  method CopyRows<T>(rows: seq<T>, failAt: FailurePoint) returns (results: seq<T>)
    ensures results == RowsBeforeFailure(rows, failAt)
    ensures failAt == None ==> results == rows
  {
    results := [];
    var i := 0;
    while i < |rows| && failAt != Some(i)
      invariant 0 <= i <= |rows|
      invariant failAt.Some? ==> i <= failAt.value
      invariant results == rows[..i]
    {
      results := results + [rows[i]];
      i := i + 1;
    }
    assert rows[..|rows|] == rows;
  }

  /**
   * The loop of the list queries whose entries are built from a row and a nested statement:
   * each row becomes `entry` of it; when the store fails at row k the loop stops there.
   */
  method CollectRows<A, B>(rows: seq<A>, entry: A -> B, failAt: FailurePoint) returns (results: seq<B>)
    ensures |results| == |RowsBeforeFailure(rows, failAt)|
    ensures forall i :: 0 <= i < |results| ==> results[i] == entry(rows[i])
  {
    results := [];
    var i := 0;
    while i < |rows| && failAt != Some(i)
      invariant 0 <= i <= |rows|
      invariant failAt.Some? ==> i <= failAt.value
      invariant |results| == i
      invariant forall j :: 0 <= j < i ==> results[j] == entry(rows[j])
    {
      results := results + [entry(rows[i])];
      i := i + 1;
    }
  }
}
