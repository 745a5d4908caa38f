/**
 * Query 1, `findNameInfo`: the longest and the shortest first names, and the most common first
 * name(s) with their number of holders.
 */
module NameInfo {
  import opened Seqs
  import opened Ordering
  import opened Schema

  datatype FirstNameInfo = FirstNameInfo(
    longNames: seq<string>,
    shortNames: seq<string>,
    commonNames: seq<string>,
    commonNameCount: int)

  /** A fresh `FirstNameInfo`, which is also what the query returns on a data-access failure. */
  const EmptyInfo := FirstNameInfo([], [], [], 0)

  /** The First_Name column. */
  function FirstNames(users: seq<User>): (names: seq<string>)
    ensures |names| == |users|
    ensures forall i :: 0 <= i < |users| ==> names[i] == users[i].firstName
  {
    seq(|users|, i requires 0 <= i < |users| => users[i].firstName)
  }

  /** Sort key of `ORDER BY FIRST_NAME`. */
  function NameKey(name: string): seq<int> {
    Codes(name)
  }

  /** Each name once, in ascending order. */
  ghost predicate StrictlyAscendingNames(names: seq<string>) {
    Distinct(names) && SortedBy(names, NameKey)
  }

  /** MAX(LENGTH(FIRST_NAME)); 0 when there are no names. */
  function MaxLength(names: seq<string>): (len: nat)
    ensures forall n :: n in names ==> |n| <= len
    ensures names != [] ==> exists n :: n in names && |n| == len
  {
    if names == [] then 0
    else
      var rest := MaxLength(names[1..]);
      assert forall n :: n in names ==> n == names[0] || n in names[1..];
      if names[1..] == [] || rest < |names[0]| then |names[0]| else rest
  }

  /** MIN(LENGTH(FIRST_NAME)); 0 when there are no names. */
  function MinLength(names: seq<string>): (len: nat)
    ensures forall n :: n in names ==> len <= |n|
    ensures names != [] ==> exists n :: n in names && |n| == len
  {
    if names == [] then 0
    else
      var rest := MinLength(names[1..]);
      assert forall n :: n in names ==> n == names[0] || n in names[1..];
      if names[1..] == [] || |names[0]| < rest then |names[0]| else rest
  }

  /** `SELECT DISTINCT FIRST_NAME ... WHERE LENGTH(FIRST_NAME) = len ORDER BY FIRST_NAME`. */
  function NamesOfLength(names: seq<string>, len: nat): (r: seq<string>)
    ensures forall n :: n in r <==> n in names && |n| == len
    ensures StrictlyAscendingNames(r)
  {
    var picked := Dedup(Filter(names, (n: string) => |n| == len));
    SortByKeyFacts(picked, NameKey);
    SortByKey(picked, NameKey)
  }

  /** Goal (A): the distinct first names of greatest length. */
  function LongNames(users: seq<User>): (r: seq<string>)
    ensures forall n :: n in r <==>
              n in FirstNames(users) && forall m :: m in FirstNames(users) ==> |m| <= |n|
    ensures StrictlyAscendingNames(r)
  {
    NamesOfLength(FirstNames(users), MaxLength(FirstNames(users)))
  }

  /** Goal (B): the distinct first names of smallest length. */
  function ShortNames(users: seq<User>): (r: seq<string>)
    ensures forall n :: n in r <==>
              n in FirstNames(users) && forall m :: m in FirstNames(users) ==> |n| <= |m|
    ensures StrictlyAscendingNames(r)
  {
    NamesOfLength(FirstNames(users), MinLength(FirstNames(users)))
  }

  /** A row of `SELECT FIRST_NAME, COUNT(*) ... GROUP BY FIRST_NAME`. */
  datatype NameRow = NameRow(name: string, count: nat)

  /** Sort key of `ORDER BY COUNT DESC, FIRST_NAME`. */
  function NameRowKey(r: NameRow): seq<int> {
    [-(r.count as int)] + Codes(r.name)
  }

  /** `rows` is what the grouped statement returns for the column `names`. */
  ghost predicate IsNameCountRows(names: seq<string>, rows: seq<NameRow>) {
    && (forall r :: r in rows <==> r.name in names && r.count == Count(names, r.name))
    && (forall i, j :: 0 <= i < j < |rows| ==> rows[i].name != rows[j].name)
    && SortedBy(rows, NameRowKey)
  }

  /** `SELECT FIRST_NAME, COUNT(*) ... GROUP BY FIRST_NAME`, before ordering. */
  function NameGroups(names: seq<string>): (groups: seq<NameRow>)
    ensures forall r :: r in groups <==> r.name in names && r.count == Count(names, r.name)
    ensures Distinct(groups)
  {
    var distinct := Dedup(names);
    var groups := seq(|distinct|, i requires 0 <= i < |distinct| => NameRow(distinct[i], Count(names, distinct[i])));
    assert forall r :: r in groups <==> r.name in names && r.count == Count(names, r.name) by {
      forall r: NameRow | r.name in names && r.count == Count(names, r.name) ensures r in groups {
        var i :| 0 <= i < |distinct| && distinct[i] == r.name;
        assert groups[i] == r;
      }
    }
    assert Distinct(groups) by {
      forall i, j | 0 <= i < j < |groups| ensures groups[i] != groups[j] {
        assert groups[i].name == distinct[i] && groups[j].name == distinct[j];
      }
    }
    groups
  }

  /** The grouped statement for goals (C) and (D). */
  function NameCountRows(names: seq<string>): (rows: seq<NameRow>)
    ensures IsNameCountRows(names, rows)
  {
    var groups := NameGroups(names);
    SortByKeyFacts(groups, NameRowKey);
    var rows := SortByKey(groups, NameRowKey);
    assert forall i, j :: 0 <= i < j < |rows| ==> rows[i].name != rows[j].name by {
      forall i, j | 0 <= i < j < |rows| ensures rows[i].name != rows[j].name {
        assert rows[i] in groups && rows[j] in groups && rows[i] != rows[j];
      }
    }
    rows
  }

  /** The names of some rows, in row order. */
  function NamesOf(rows: seq<NameRow>): (names: seq<string>)
    ensures |names| == |rows|
    ensures forall i :: 0 <= i < |rows| ==> names[i] == rows[i].name
  {
    seq(|rows|, i requires 0 <= i < |rows| => rows[i].name)
  }

  /**
   * The loop over the grouped rows: the first row sets the count and the first common name;
   * the following rows are taken while their count equals the first one.
   */
  method ScanNameCounts(rows: seq<NameRow>) returns (common: seq<string>, maxCount: int)
    ensures rows == [] ==> common == [] && maxCount == 0
    ensures rows != [] ==> maxCount == rows[0].count
    ensures exists k :: 0 <= k <= |rows| && common == NamesOf(rows[..k])
                        && (forall i :: 0 <= i < k ==> rows[i].count == maxCount)
                        && (k < |rows| ==> rows[k].count != maxCount)
  {
    common, maxCount := [], 0;
    if |rows| == 0 {
      assert common == NamesOf(rows[..0]);
      return;
    }
    maxCount := rows[0].count;
    common := [rows[0].name];
    var k := 1;
    while k < |rows| && rows[k].count == maxCount
      invariant 1 <= k <= |rows|
      invariant common == NamesOf(rows[..k])
      invariant forall i :: 0 <= i < k ==> rows[i].count == maxCount
    {
      common := common + [rows[k].name];
      k := k + 1;
    }
  }

  /** The prefix the loop keeps is exactly the set of most common names, in name order. */
  lemma CommonPrefixIsMostCommon(names: seq<string>, rows: seq<NameRow>, k: nat, maxCount: int)
    requires IsNameCountRows(names, rows) && rows != []
    requires maxCount == rows[0].count && k <= |rows|
    requires forall i :: 0 <= i < k ==> rows[i].count == maxCount
    requires k < |rows| ==> rows[k].count != maxCount
    ensures forall n :: n in NamesOf(rows[..k]) <==> n in names && Count(names, n) == maxCount
    ensures forall n :: n in names ==> Count(names, n) <= maxCount
    ensures StrictlyAscendingNames(NamesOf(rows[..k]))
  {
    var top := NamesOf(rows[..k]);
    forall j | 0 <= j < |rows| ensures rows[j].count <= maxCount {
      if j > 0 {
        assert LexLe(NameRowKey(rows[0]), NameRowKey(rows[j]));
        LexLeCons(-(rows[0].count as int), Codes(rows[0].name), -(rows[j].count as int), Codes(rows[j].name));
      }
    }
    forall j | k < j < |rows| ensures rows[j].count < maxCount {
      assert LexLe(NameRowKey(rows[k]), NameRowKey(rows[j]));
      LexLeCons(-(rows[k].count as int), Codes(rows[k].name), -(rows[j].count as int), Codes(rows[j].name));
    }
    forall n | n in names ensures Count(names, n) <= maxCount {
      assert NameRow(n, Count(names, n)) in rows;
    }
    forall n | n in names && Count(names, n) == maxCount ensures n in top {
      var r := NameRow(n, Count(names, n));
      assert r in rows;
      var j :| 0 <= j < |rows| && rows[j] == r;
      assert j < k;
      assert top[j] == n;
    }
    forall n | n in top ensures n in names && Count(names, n) == maxCount {
      var j :| 0 <= j < |top| && top[j] == n;
      assert rows[j] in rows;
    }
    forall i, j | 0 <= i < j < |top| ensures top[i] != top[j] && LexLe(NameKey(top[i]), NameKey(top[j])) {
      assert LexLe(NameRowKey(rows[i]), NameRowKey(rows[j]));
      LexLeCons(-(rows[i].count as int), Codes(rows[i].name), -(rows[j].count as int), Codes(rows[j].name));
    }
  }

  /** The whole query; `storeFails` says whether the store raises a data-access failure. */
  method FindNameInfo(db: Database, storeFails: bool) returns (info: FirstNameInfo)
    ensures storeFails ==> info == EmptyInfo
    ensures !storeFails ==> info.longNames == LongNames(db.users) && info.shortNames == ShortNames(db.users)
    ensures !storeFails ==> forall n :: n in info.commonNames <==>
              n in FirstNames(db.users) && Count(FirstNames(db.users), n) == info.commonNameCount
    ensures !storeFails ==> forall n :: n in FirstNames(db.users) ==>
              Count(FirstNames(db.users), n) <= info.commonNameCount
    ensures !storeFails ==> StrictlyAscendingNames(info.commonNames)
    ensures !storeFails ==> (info.commonNames == [] <==> db.users == [])
    ensures !storeFails && db.users == [] ==> info == EmptyInfo
  {
    if storeFails {
      return EmptyInfo;
    }
    var names := FirstNames(db.users);
    var rows := NameCountRows(names);
    var common, maxCount := ScanNameCounts(rows);
    assert forall n :: n in names ==> NameRow(n, Count(names, n)) in rows;
    if rows == [] {
      EmptyIfNoMembers(names);
    } else {
      var k :| 0 <= k <= |rows| && common == NamesOf(rows[..k])
               && (forall i :: 0 <= i < k ==> rows[i].count == maxCount)
               && (k < |rows| ==> rows[k].count != maxCount);
      CommonPrefixIsMostCommon(names, rows, k, maxCount);
      assert rows[0] in rows && rows[0].name in names;
      assert common != [] by {
        assert rows[0].name in names && Count(names, rows[0].name) == maxCount;
      }
    }
    info := FirstNameInfo(LongNames(db.users), ShortNames(db.users), common, maxCount);
  }
}
