/** Query 7, `findEventStates`: the state or states hosting the most events, and that number. */
module EventStates {
  import opened Seqs
  import opened Ordering
  import opened Schema

  datatype EventStateInfo = EventStateInfo(eventCount: int, popularStateNames: seq<string>)

  /** What the query returns when the statement yields no row, and on a data-access failure. */
  const NoStateInfo := EventStateInfo(-1, [])

  predicate Hosts(r: (Event, City)) {
    r.0.cityId == r.1.cityId
  }

  function StateOf(r: (Event, City)): string {
    r.1.stateName
  }

  /** `Events E JOIN Cities C ON E.EVENT_CITY_ID = C.CITY_ID`, projected to C.STATE_NAME. */
  function EventStateColumn(db: Database): (states: seq<string>)
    ensures forall st :: st in states <==>
              exists e, c :: e in db.events && c in db.cities && e.cityId == c.cityId && c.stateName == st
  {
    var hosted := Filter(Product(db.events, db.cities), Hosts);
    MapSeqMembers(hosted, StateOf);
    var states := MapSeq(hosted, StateOf);
    assert forall st :: (exists e, c :: e in db.events && c in db.cities && e.cityId == c.cityId && c.stateName == st)
             ==> st in states by {
      forall st | exists e, c :: e in db.events && c in db.cities && e.cityId == c.cityId && c.stateName == st
        ensures st in states
      {
        var e, c :| e in db.events && c in db.cities && e.cityId == c.cityId && c.stateName == st;
        assert (e, c) in hosted;
      }
    }
    states
  }

  /** The number of events held in `state`: its rows in the join. */
  function EventsIn(db: Database, state: string): nat {
    Count(EventStateColumn(db), state)
  }

  /** Event `e` is held in a city of `state`. */
  ghost predicate HeldIn(db: Database, state: string, e: Event) {
    exists c :: c in db.cities && c.cityId == e.cityId && c.stateName == state
  }

  /** A row of the join that counts towards `state`. */
  predicate HostsIn(state: string, r: (Event, City)) {
    Hosts(r) && StateOf(r) == state
  }

  /**
   * With City_ID a key of Cities, the number a state gets is the number of events held in
   * its cities: the join produces one row per such event.
   */
  lemma EventsInIsEventCount(db: Database, state: string)
    requires UniqueCityIds(db.cities)
    ensures EventsIn(db, state) == |Filter(db.events, (e: Event) => HeldIn(db, state, e))|
  {
    var q := (r: (Event, City)) => HostsIn(state, r);
    assert Distinct(db.cities) by {
      forall i, j | 0 <= i < j < |db.cities| ensures db.cities[i] != db.cities[j] {
        assert db.cities[i].cityId != db.cities[j].cityId;
      }
    }
    assert forall e, c1, c2 :: e in db.events && c1 in db.cities && c2 in db.cities && q((e, c1)) && q((e, c2)) ==> c1 == c2 by {
      forall e, c1, c2 | e in db.events && c1 in db.cities && c2 in db.cities && q((e, c1)) && q((e, c2))
        ensures c1 == c2
      {
        assert c1.cityId == c2.cityId;
      }
    }
    JoinAtMostOne(db.events, db.cities, q, (e: Event) => HeldIn(db, state, e));
    CountMappedFilter(Product(db.events, db.cities), Hosts, StateOf, state, q);
  }

  /** A row of `SELECT C.STATE_NAME, COUNT(*) AS num ... GROUP BY C.STATE_NAME`. */
  type StateRow = Group<string>

  /** Sort key of `ORDER BY num DESC`; the order of states with equal counts is left open. */
  function StateKey(g: StateRow): seq<int> {
    [-(g.count as int)]
  }

  /** `rows` is a result the grouped, ordered statement may return. */
  ghost predicate IsStateResult(db: Database, rows: seq<StateRow>) {
    IsOrderingOf(rows, GroupCounts(EventStateColumn(db)), StateKey)
  }

  /** One such result. */
  function SomeStateResult(db: Database): (rows: seq<StateRow>)
    ensures IsStateResult(db, rows)
  {
    SortByKeyIsOrdering(GroupCounts(EventStateColumn(db)), StateKey);
    SortByKey(GroupCounts(EventStateColumn(db)), StateKey)
  }

  /** The names of the rows with count `n`, in row order. */
  function StatesWithCount(rows: seq<StateRow>, n: nat): (states: seq<string>)
    ensures forall st :: st in states <==> Group(st, n) in rows
  {
    if rows == [] then []
    else
      var last := rows[|rows| - 1];
      var init := rows[..|rows| - 1];
      assert rows == init + [last];
      StatesWithCount(init, n) + (if last.count == n then [last.value] else [])
  }

  /**
   * The loop over the rows: the first row creates the answer with its count; every row with
   * that count adds its state; no row leaves the answer unset, which becomes `NoStateInfo`.
   */
  method ScanStates(rows: seq<StateRow>) returns (info: EventStateInfo)
    ensures rows == [] ==> info == NoStateInfo
    ensures rows != [] ==> info == EventStateInfo(rows[0].count, StatesWithCount(rows, rows[0].count))
  {
    var started := false;
    var maxEvents := 0;
    var states: seq<string> := [];
    var i := 0;
    while i < |rows|
      invariant 0 <= i <= |rows|
      invariant started <==> i > 0
      invariant started ==> maxEvents == rows[0].count && states == StatesWithCount(rows[..i], maxEvents)
      invariant !started ==> states == []
    {
      if !started {
        maxEvents := rows[i].count;
        started := true;
      }
      assert rows[..i + 1][..i] == rows[..i];
      if rows[i].count == maxEvents {
        states := states + [rows[i].value];
      }
      i := i + 1;
    }
    assert rows[..|rows|] == rows;
    if started {
      info := EventStateInfo(maxEvents, states);
    } else {
      info := NoStateInfo;
    }
  }

  /** Ordered by descending count, the first row has the largest count. */
  lemma FirstRowHasMostEvents(rows: seq<StateRow>)
    requires SortedBy(rows, StateKey) && rows != []
    ensures forall g :: g in rows ==> g.count <= rows[0].count
  {
    forall g | g in rows ensures g.count <= rows[0].count {
      var j :| 0 <= j < |rows| && rows[j] == g;
      if j > 0 {
        assert LexLe(StateKey(rows[0]), StateKey(rows[j]));
        LexLeCons(-(rows[0].count as int), [], -(g.count as int), []);
        assert StateKey(rows[0]) == [-(rows[0].count as int)] + [] && StateKey(g) == [-(g.count as int)] + [];
      }
    }
  }

  /**
   * On any admissible result, the first row's count is the largest number of events in a
   * state, and the states with that count are exactly the states hosting that many, each once.
   */
  lemma MostEventsMeaning(db: Database, rows: seq<StateRow>)
    requires IsStateResult(db, rows) && rows != []
    ensures forall st :: st in EventStateColumn(db) ==> EventsIn(db, st) <= rows[0].count
    ensures forall st :: st in StatesWithCount(rows, rows[0].count) <==>
              st in EventStateColumn(db) && EventsIn(db, st) == rows[0].count
    ensures Distinct(StatesWithCount(rows, rows[0].count))
    ensures rows[0].count >= 1
  {
    var column := EventStateColumn(db);
    var groups := GroupCounts(column);
    OrderingFacts(rows, groups, StateKey);
    assert rows[0] in rows;
    FirstRowHasMostEvents(rows);
    assert forall st :: st in column ==> Group(st, Count(column, st)) in rows;
    StatesWithCountDistinct(rows, rows[0].count);
  }

  /** Rows with distinct state names list each state once. */
  lemma {:induction false} StatesWithCountDistinct(rows: seq<StateRow>, n: nat)
    requires forall i, j :: 0 <= i < j < |rows| ==> rows[i].value != rows[j].value
    ensures Distinct(StatesWithCount(rows, n))
  {
    if rows != [] {
      var init := rows[..|rows| - 1];
      StatesWithCountDistinct(init, n);
      var last := rows[|rows| - 1];
      forall st | st in StatesWithCount(init, n) ensures st != last.value {
        var k :| 0 <= k < |init| && init[k] == Group(st, n);
      }
    }
  }

  /** The whole query, given the rows the statement returns. */
  method FindEventStates(db: Database, rows: seq<StateRow>, storeFails: bool) returns (info: EventStateInfo)
    requires IsStateResult(db, rows)
    ensures storeFails || EventStateColumn(db) == [] ==> info == NoStateInfo
    ensures !storeFails && EventStateColumn(db) != [] ==>
              && info.eventCount >= 1
              && (forall st :: st in EventStateColumn(db) ==> EventsIn(db, st) <= info.eventCount)
              && (forall st :: st in info.popularStateNames <==>
                    st in EventStateColumn(db) && EventsIn(db, st) == info.eventCount)
              && Distinct(info.popularStateNames)
  {
    if storeFails {
      return NoStateInfo;
    }
    info := ScanStates(rows);
    var column := EventStateColumn(db);
    OrderingFacts(rows, GroupCounts(column), StateKey);
    assert forall st :: st in column ==> Group(st, Count(column, st)) in rows;
    if rows == [] {
      EmptyIfNoMembers(column);
    } else {
      MostEventsMeaning(db, rows);
      assert rows[0] in rows;
    }
  }
}
