/**
 * Query 0, `findMonthOfBirthInfo`: how many users list a birth month, the most and the least
 * popular birth month, and the users born in each of those two months.
 */
module MonthOfBirth {
  import opened Wrappers
  import opened Seqs
  import opened Ordering
  import opened Schema

  datatype BirthMonthInfo = BirthMonthInfo(
    total: int,
    mostMonth: int,
    leastMonth: int,
    mostPopularUsers: seq<UserInfo>,
    leastPopularUsers: seq<UserInfo>)

  /** The result on a data-access failure. */
  const FailedInfo := BirthMonthInfo(-1, -1, -1, [], [])

  /** The Month_of_Birth column: one entry per user whose birth month is not NULL. */
  function BirthMonths(users: seq<User>): (months: seq<int>)
    ensures |months| <= |users|
    ensures forall m :: m in months <==> exists u :: u in users && u.monthOfBirth == Some(m)
  {
    if users == [] then []
    else
      assert forall u :: u in users <==> u == users[0] || u in users[1..];
      match users[0].monthOfBirth
      case Some(m) => [m] + BirthMonths(users[1..])
      case None => BirthMonths(users[1..])
  }

  /**
   * The column holds one entry per user with a birth month: each month as often as users are
   * born in it, and as many entries as users whose month is not NULL.
   */
  lemma {:induction false} BirthMonthsCount(users: seq<User>, m: int)
    ensures Count(BirthMonths(users), m) == |Filter(users, (u: User) => u.monthOfBirth == Some(m))|
    ensures |BirthMonths(users)| == |Filter(users, (u: User) => u.monthOfBirth.Some?)|
  {
    if users != [] {
      BirthMonthsCount(users[1..], m);
    }
  }

  /** A row of step 1: `Birthed` users have birth month `month`. */
  datatype MonthRow = MonthRow(birthed: nat, month: int)

  /** Sort key of `ORDER BY Birthed DESC, Month_of_Birth ASC`. */
  function MonthRowKey(r: MonthRow): seq<int> {
    [-(r.birthed as int), r.month]
  }

  /** `GROUP BY Month_of_Birth` with `COUNT(*)`, before ordering. */
  function MonthGroups(months: seq<int>): (groups: seq<MonthRow>)
    ensures forall r :: r in groups <==> r.month in months && r.birthed == Count(months, r.month)
    ensures KeysDistinct(groups, MonthRowKey)
  {
    var ms := Dedup(months);
    var groups := seq(|ms|, i requires 0 <= i < |ms| => MonthRow(Count(months, ms[i]), ms[i]));
    assert forall r :: r in groups <==> r.month in months && r.birthed == Count(months, r.month) by {
      forall r: MonthRow | r.month in months && r.birthed == Count(months, r.month) ensures r in groups {
        var i :| 0 <= i < |ms| && ms[i] == r.month;
        assert groups[i] == r;
      }
    }
    assert KeysDistinct(groups, MonthRowKey) by {
      forall i, j | 0 <= i < j < |groups| ensures MonthRowKey(groups[i]) != MonthRowKey(groups[j]) {
        assert MonthRowKey(groups[i])[1] != MonthRowKey(groups[j])[1];
      }
    }
    groups
  }

  /** `rows` is what step 1 returns for the birth-month column `months`: one row per month
      with its number of users, each month once, by descending count and then ascending month. */
  ghost predicate IsMonthRows(months: seq<int>, rows: seq<MonthRow>) {
    && (forall r :: r in rows <==> r.month in months && r.birthed == Count(months, r.month))
    && (forall i, j :: 0 <= i < j < |rows| ==> rows[i].month != rows[j].month)
    && SortedBy(rows, MonthRowKey)
  }

  /** Step 1 of the query: the month rows in the order the statement returns them. */
  function MonthRows(users: seq<User>): (rows: seq<MonthRow>)
    ensures IsMonthRows(BirthMonths(users), rows)
  {
    RankMonths(BirthMonths(users))
  }

  /** Grouping and ordering a birth-month column. */
  function RankMonths(months: seq<int>): (rows: seq<MonthRow>)
    ensures IsMonthRows(months, rows)
  {
    var groups := MonthGroups(months);
    SortByKeyFacts(groups, MonthRowKey);
    var rows := SortByKey(groups, MonthRowKey);
    assert forall i, j :: 0 <= i < j < |rows| ==> rows[i].month != rows[j].month by {
      forall i, j | 0 <= i < j < |rows| ensures rows[i].month != rows[j].month {
        assert rows[i] in groups && rows[j] in groups;
        assert MonthRowKey(rows[i]) != MonthRowKey(rows[j]);
      }
    }
    rows
  }

  /** `month` has the most users, and is the smallest such month. */
  ghost predicate IsMostPopularMonth(months: seq<int>, month: int) {
    && month in months
    && forall m :: m in months ==>
         Count(months, m) < Count(months, month) || (Count(months, m) == Count(months, month) && month <= m)
  }

  /** `month` has the fewest users (at least one), and is the largest such month. */
  ghost predicate IsLeastPopularMonth(months: seq<int>, month: int) {
    && month in months
    && forall m :: m in months ==>
         Count(months, m) > Count(months, month) || (Count(months, m) == Count(months, month) && m <= month)
  }

  /** Sum of the `Birthed` column. */
  function TotalBirthed(rows: seq<MonthRow>): nat {
    if rows == [] then 0 else TotalBirthed(rows[..|rows| - 1]) + rows[|rows| - 1].birthed
  }

  /** The group sizes of a GROUP BY add up to the number of grouped rows. */
  lemma {:induction false} GroupSizesAddUp(rows: seq<MonthRow>, months: seq<int>)
    requires forall r :: r in rows ==> r.month in months && r.birthed == Count(months, r.month)
    requires forall m :: m in months ==> exists r :: r in rows && r.month == m
    requires forall i, j :: 0 <= i < j < |rows| ==> rows[i].month != rows[j].month
    ensures TotalBirthed(rows) == |months|
    decreases |rows|
  {
    if rows == [] {
      assert forall m :: m !in months;
      EmptyIfNoMembers(months);
    } else {
      var last := rows[|rows| - 1];
      var init := rows[..|rows| - 1];
      var rest := RemoveAll(months, last.month);
      forall r | r in init ensures r.month in rest && r.birthed == Count(rest, r.month) {
        var k :| 0 <= k < |init| && init[k] == r;
        assert rows[k] == r;
      }
      forall m | m in rest ensures exists r :: r in init && r.month == m {
        var r :| r in rows && r.month == m;
        var k :| 0 <= k < |rows| && rows[k] == r;
        assert k < |rows| - 1;
        assert init[k] == r;
      }
      forall i, j | 0 <= i < j < |init| ensures init[i].month != init[j].month {
        assert init[i] == rows[i] && init[j] == rows[j];
      }
      GroupSizesAddUp(init, rest);
    }
  }

  /** The first month row holds the most popular month. */
  lemma FirstRowIsMostPopular(months: seq<int>, rows: seq<MonthRow>)
    requires IsMonthRows(months, rows) && rows != []
    ensures IsMostPopularMonth(months, rows[0].month)
  {
    var first := rows[0];
    assert first in rows;
    forall m | m in months
      ensures Count(months, m) < Count(months, first.month)
           || (Count(months, m) == Count(months, first.month) && first.month <= m)
    {
      var r := MonthRow(Count(months, m), m);
      assert r in rows;
      var k :| 0 <= k < |rows| && rows[k] == r;
      if k > 0 {
        assert LexLe(MonthRowKey(first), MonthRowKey(r));
      } else {
        LexLeReflexive(MonthRowKey(r));
      }
      LexLe2(-(first.birthed as int), first.month, -(r.birthed as int), r.month);
    }
  }

  /** The last month row holds the least popular month. */
  lemma LastRowIsLeastPopular(months: seq<int>, rows: seq<MonthRow>)
    requires IsMonthRows(months, rows) && rows != []
    ensures IsLeastPopularMonth(months, rows[|rows| - 1].month)
  {
    var last := rows[|rows| - 1];
    assert last in rows;
    forall m | m in months
      ensures Count(months, m) > Count(months, last.month)
           || (Count(months, m) == Count(months, last.month) && m <= last.month)
    {
      var r := MonthRow(Count(months, m), m);
      assert r in rows;
      var k :| 0 <= k < |rows| && rows[k] == r;
      if k < |rows| - 1 {
        assert LexLe(MonthRowKey(r), MonthRowKey(last));
      } else {
        LexLeReflexive(MonthRowKey(r));
      }
      LexLe2(-(r.birthed as int), r.month, -(last.birthed as int), last.month);
    }
  }

  /** What the loop over step 1 reads off its rows. */
  lemma MonthRowsSummary(months: seq<int>, rows: seq<MonthRow>)
    requires IsMonthRows(months, rows)
    ensures TotalBirthed(rows) == |months|
    ensures rows == [] <==> months == []
    ensures rows != [] ==> IsMostPopularMonth(months, rows[0].month)
    ensures rows != [] ==> IsLeastPopularMonth(months, rows[|rows| - 1].month)
  {
    forall m | m in months ensures exists r :: r in rows && r.month == m {
      assert MonthRow(Count(months, m), m) in rows;
    }
    GroupSizesAddUp(rows, months);
    if months == [] {
      assert forall r :: r !in rows;
      EmptyIfNoMembers(rows);
    }
    if rows != [] {
      FirstRowIsMostPopular(months, rows);
      LastRowIsLeastPopular(months, rows);
    }
  }

  /** Steps 2 and 3: the users born in `month`, by ascending User_ID. */
  function UsersBornIn(users: seq<User>, month: int): (r: seq<UserInfo>)
    ensures forall x :: x in r <==> exists u :: u in users && u.monthOfBirth == Some(month) && Info(u) == x
    ensures forall i, j :: 0 <= i < j < |r| ==> r[i].id <= r[j].id
    ensures UniqueUserIds(users) ==> StrictlyAscendingIds(r)
  {
    var born := Filter(users, (u: User) => u.monthOfBirth == Some(month));
    FilterUniqueIds(users, (u: User) => u.monthOfBirth == Some(month));
    SortedInfos(born)
  }

  /** The loop over the rows of step 1: the first row gives the most popular month, the last
      row the least popular one, and the counts add up to the total. */
  method ScanMonthRows(rows: seq<MonthRow>) returns (total: int, mostMonth: int, leastMonth: int)
    ensures total == TotalBirthed(rows)
    ensures mostMonth == if rows == [] then 0 else rows[0].month
    ensures leastMonth == if rows == [] then 0 else rows[|rows| - 1].month
  {
    mostMonth, leastMonth, total := 0, 0, 0;
    var i := 0;
    while i < |rows|
      invariant 0 <= i <= |rows|
      invariant total == TotalBirthed(rows[..i])
      invariant mostMonth == if i > 0 then rows[0].month else 0
      invariant leastMonth == if i == |rows| && i > 0 then rows[i - 1].month else 0
    {
      if i == 0 {
        mostMonth := rows[i].month;
      }
      if i == |rows| - 1 {
        leastMonth := rows[i].month;
      }
      assert rows[..i + 1][..i] == rows[..i];
      total := total + rows[i].birthed;
      i := i + 1;
    }
    assert rows[..i] == rows;
  }

  /** The whole query; `storeFails` says whether the store raises a data-access failure. */
  method FindMonthOfBirthInfo(db: Database, storeFails: bool) returns (info: BirthMonthInfo)
    ensures storeFails ==> info == FailedInfo
    ensures !storeFails ==> info.total == |Filter(db.users, (u: User) => u.monthOfBirth.Some?)|
    ensures !storeFails && BirthMonths(db.users) == [] ==> info.mostMonth == 0 && info.leastMonth == 0
    ensures !storeFails && BirthMonths(db.users) != [] ==>
              && IsMostPopularMonth(BirthMonths(db.users), info.mostMonth)
              && IsLeastPopularMonth(BirthMonths(db.users), info.leastMonth)
    ensures !storeFails ==>
              && info.mostPopularUsers == UsersBornIn(db.users, info.mostMonth)
              && info.leastPopularUsers == UsersBornIn(db.users, info.leastMonth)
  {
    if storeFails {
      return FailedInfo;
    }
    var rows := MonthRows(db.users);
    var total, mostMonth, leastMonth := ScanMonthRows(rows);
    MonthRowsSummary(BirthMonths(db.users), rows);
    BirthMonthsCount(db.users, 0);
    info := BirthMonthInfo(total, mostMonth, leastMonth,
                           UsersBornIn(db.users, mostMonth), UsersBornIn(db.users, leastMonth));
  }
}
