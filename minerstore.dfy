/** MinerDataCollector.collect_and_store_data: fetch one payload, insert one
    mining_stats row, read back MAX(id), then insert one
    share_rejection_reasons row per entry of the payload's
    sharesRejectedReasons list. The database is held as two in-memory tables
    and the next value of the id sequence. */
module MinerStore {
  import opened Wrappers
  import opened Telemetry
  import opened Extractor
  import ColumnMap

  /** One mining_stats row: its generated id, and values[k] for the column
      ColumnMap.Columns[k]. */
  datatype StatsRow = StatsRow(id: int, values: seq<Json>)

  /** One share_rejection_reasons row. */
  datatype ReasonRow = ReasonRow(miningStatsId: int, message: Json, count: Json)

  /** The database contents the collector writes to. */
  datatype Database = Database(stats: seq<StatsRow>, reasons: seq<ReasonRow>, nextId: int)

  /** How one call of collect_and_store_data ends. */
  datatype CollectOutcome =
    | Collected  // "Successfully collected data from ..."
    | Reported   // an exception was caught and printed ("Error collecting data: ...")
    | Escaped    // extraction raised, then the finally clause read the
                 // unassigned temp_file and the UnboundLocalError left the method

  /** Ids strictly increase in insertion order. */
  ghost predicate IdsIncreasing(stats: seq<StatsRow>)
  {
    forall i, j :: 0 <= i < j < |stats| ==> stats[i].id < stats[j].id
  }

  /** The state the collector keeps: increasing ids, all below the next one. */
  ghost predicate ValidDatabase(db: Database)
  {
    IdsIncreasing(db.stats) && (|db.stats| > 0 ==> db.stats[|db.stats| - 1].id < db.nextId)
  }

  /** SELECT MAX(id) FROM mining_stats: NULL (None) on an empty table. */
  function MaxId(stats: seq<StatsRow>): (m: Option<int>)
    ensures m.None? <==> |stats| == 0
    ensures m.Some? ==> exists k :: 0 <= k < |stats| && stats[k].id == m.value
    ensures m.Some? ==> forall k :: 0 <= k < |stats| ==> stats[k].id <= m.value
  {
    if |stats| == 0 then None
    else
      var rest := MaxId(stats[..|stats| - 1]);
      var last := stats[|stats| - 1].id;
      if rest.Some? && rest.value > last then rest else Some(last)
  }

  /** With increasing ids, MAX(id) is the id of the row inserted last. */
  lemma MaxIdIsLastInserted(stats: seq<StatsRow>)
    requires IdsIncreasing(stats) && |stats| > 0
    ensures MaxId(stats) == Some(stats[|stats| - 1].id)
  {
    var m := MaxId(stats);
    var k :| 0 <= k < |stats| && stats[k].id == m.value;
  }

  /** The row INSERT ... SELECT <source keys> FROM read_json(...) adds. The
      SELECT names every source key as a column of the JSON file, so a payload
      that is not an object, or lacks any of the keys, makes DuckDB raise
      instead of inserting. */
  function StatsValues(data: Json): (r: Option<seq<Json>>)
    ensures r.Some? <==>
      data.JObj? && forall k :: 0 <= k < |ColumnMap.SourceKeys| ==> ColumnMap.SourceKeys[k] in data.fields
    ensures r.Some? ==> |r.value| == |ColumnMap.Columns|
  {
    if data.JObj? && forall k :: 0 <= k < |ColumnMap.SourceKeys| ==> ColumnMap.SourceKeys[k] in data.fields
    then Some(seq(|ColumnMap.SourceKeys|, k requires 0 <= k < |ColumnMap.SourceKeys| => data.fields[ColumnMap.SourceKeys[k]]))
    else None
  }

  /** The value a stats row holds in the column of the given name. */
  function ColumnValue(values: seq<Json>, column: string): Json
    requires |values| == |ColumnMap.Columns| && column in ColumnMap.Columns
  {
    values[ColumnMap.IndexOf(ColumnMap.Columns, column)]
  }

  /** Each column of the inserted row holds the payload's value for the key
      paired with it, so e.g. mac_address holds the payload's macAddr. */
  lemma StatsRowColumns(data: Json, k: nat)
    requires StatsValues(data).Some? && k < |ColumnMap.Columns|
    ensures ColumnValue(StatsValues(data).value, ColumnMap.Columns[k]) == data.fields[ColumnMap.SourceKeys[k]]
  {
    ColumnMap.ColumnMappingIsOneToOne();
    var i := ColumnMap.IndexOf(ColumnMap.Columns, ColumnMap.Columns[k]);
    assert !(i < k) && !(k < i);
  }

  /** The items `for reason in v` visits before the loop body first fails.
      A list yields its items. An empty string or object yields nothing. A
      non-empty string or object yields strings, which reason['message']
      cannot subscript (TypeError), and any other value is not iterable
      (TypeError): both are None, a loop failing before its first row. */
  function LoopItems(v: Json): (r: Option<seq<Json>>)
    ensures r.Some? <==> v.JArr? || v == JStr("") || v == JObj(map[])
    ensures r.Some? ==> r.value == if v.JArr? then v.items else []
  {
    match v
    case JArr(items) => Some(items)
    case JStr(s) => if |s| == 0 then Some([]) else None
    case JObj(m) => if |m| == 0 then Some([]) else None
    case _ => None
  }

  /** reason['message'] and reason['count'] both succeed. */
  predicate WellFormedReason(reason: Json)
  {
    reason.JObj? && "message" in reason.fields && "count" in reason.fields
  }

  /** The number of leading entries that are well formed. */
  function WellFormedPrefix(items: seq<Json>): (n: nat)
    ensures n <= |items|
    ensures forall k :: 0 <= k < n ==> WellFormedReason(items[k])
    ensures n < |items| ==> !WellFormedReason(items[n])
  {
    if |items| == 0 || !WellFormedReason(items[0]) then 0
    else 1 + WellFormedPrefix(items[1..])
  }

  /** The row inserted for one entry: VALUES (mining_stats_id, message, count). */
  function ReasonRowOf(id: int, reason: Json): ReasonRow
    requires WellFormedReason(reason)
  {
    ReasonRow(id, reason.fields["message"], reason.fields["count"])
  }

  function LinkedRows(id: int, entries: seq<Json>): (rows: seq<ReasonRow>)
    requires forall k :: 0 <= k < |entries| ==> WellFormedReason(entries[k])
    ensures |rows| == |entries|
  {
    seq(|entries|, k requires 0 <= k < |entries| => ReasonRowOf(id, entries[k]))
  }

  /** What the reason loop writes, and whether it raised. */
  datatype ReasonWrites = ReasonWrites(rows: seq<ReasonRow>, failed: bool)

  /** minercollect.py lines 103-111: nothing is written unless MAX(id) is truthy (not NULL,
      not 0) and the payload has the sharesRejectedReasons key; otherwise
      one row per entry, in list order, up to the first entry the loop body
      cannot read (the rows before it stay: there is no transaction). */
  function ReasonInserts(maxId: Option<int>, data: Json): (w: ReasonWrites)
    requires data.JObj?
    ensures |w.rows| > 0 || w.failed ==>
      maxId.Some? && maxId.value != 0 && ColumnMap.ReasonsKey in data.fields
    ensures forall k :: 0 <= k < |w.rows| ==> maxId == Some(w.rows[k].miningStatsId)
    ensures !w.failed && ColumnMap.ReasonsKey in data.fields && maxId.Some? && maxId.value != 0 ==>
      LoopItems(data.fields[ColumnMap.ReasonsKey]).Some? &&
      |w.rows| == |LoopItems(data.fields[ColumnMap.ReasonsKey]).value|
  {
    if maxId.None? || maxId.value == 0 || ColumnMap.ReasonsKey !in data.fields then ReasonWrites([], false)
    else match LoopItems(data.fields[ColumnMap.ReasonsKey])
      case None => ReasonWrites([], true)
      case Some(items) =>
        var n := WellFormedPrefix(items);
        ReasonWrites(LinkedRows(maxId.value, items[..n]), n < |items|)
  }

  /** minercollect.py lines 69-111 on an already extracted payload: the new database and the outcome. */
  function StoreSpec(db: Database, data: Json): (res: (Database, CollectOutcome))
    ensures res.1 != Escaped
    ensures |res.0.stats| == |db.stats| + (if StatsValues(data).Some? then 1 else 0)
    ensures res.0.stats[..|db.stats|] == db.stats
    ensures |res.0.reasons| >= |db.reasons| && res.0.reasons[..|db.reasons|] == db.reasons
    ensures res.0.nextId == db.nextId + (if StatsValues(data).Some? then 1 else 0)
  {
    match StatsValues(data)
    case None => (db, Reported)
    case Some(values) =>
      var stats := db.stats + [StatsRow(db.nextId, values)];
      var w := ReasonInserts(MaxId(stats), data);
      (Database(stats, db.reasons + w.rows, db.nextId + 1), if w.failed then Reported else Collected)
  }

  /** The whole of collect_and_store_data. */
  function CollectSpec(db: Database, resp: Response, soup: Soup, parse: Parser): (res: (Database, CollectOutcome))
    ensures res.1 == Escaped <==> ExtractJsonFromResponse(resp, soup, parse).Err?
  {
    match ExtractJsonFromResponse(resp, soup, parse)
    case Err(_) => (db, Escaped)
    case Ok(data) => StoreSpec(db, data)
  }

  /** A store keeps the ids increasing. */
  lemma StorePreservesValid(db: Database, data: Json)
    requires ValidDatabase(db)
    ensures ValidDatabase(StoreSpec(db, data).0)
  {
  }

  /** A store whose insert succeeds adds exactly one stats row, holding the
      payload's values under the next id, and keeps the earlier rows; one
      whose insert fails changes nothing and reports the error. */
  lemma StoreAddsOneStatsRow(db: Database, data: Json)
    ensures StatsValues(data).None? ==> StoreSpec(db, data) == (db, Reported)
    ensures StatsValues(data).Some? ==>
      var db' := StoreSpec(db, data).0;
      |db'.stats| == |db.stats| + 1 && db'.stats[..|db.stats|] == db.stats &&
      db'.stats[|db.stats|] == StatsRow(db.nextId, StatsValues(data).value) &&
      db'.reasons[..|db.reasons|] == db.reasons
  {
    if StatsValues(data).Some? {
      var db' := StoreSpec(db, data).0;
      assert db'.stats == db.stats + [StatsRow(db.nextId, StatsValues(data).value)];
    }
  }

  /** Every reason row written carries MAX(id), which is the id of the stats
      row just inserted, and copies message and count of its entry, in list
      order; when every entry is well formed there is one row per entry and
      the store succeeds. */
  lemma StoreLinksReasons(db: Database, data: Json)
    requires ValidDatabase(db) && StatsValues(data).Some?
    requires db.nextId != 0 && ColumnMap.ReasonsKey in data.fields
    requires LoopItems(data.fields[ColumnMap.ReasonsKey]).Some?
    ensures
      var (db', outcome) := StoreSpec(db, data);
      var items := LoopItems(data.fields[ColumnMap.ReasonsKey]).value;
      var added := db'.reasons[|db.reasons|..];
      MaxId(db'.stats) == Some(db.nextId) &&
      |added| == WellFormedPrefix(items) &&
      (forall k :: 0 <= k < |added| ==> added[k] == ReasonRowOf(db.nextId, items[k])) &&
      (outcome == Collected <==> forall k :: 0 <= k < |items| ==> WellFormedReason(items[k]))
  {
    var stats := db.stats + [StatsRow(db.nextId, StatsValues(data).value)];
    MaxIdIsLastInserted(stats);
    var items := LoopItems(data.fields[ColumnMap.ReasonsKey]).value;
    var w := ReasonInserts(Some(db.nextId), data);
    ReasonInsertsLinks(db.nextId, data);
    var db' := StoreSpec(db, data).0;
    assert db'.reasons == db.reasons + w.rows;
    assert db'.reasons[|db.reasons|..] == w.rows;
  }

  /** With a truthy MAX(id) and a list to loop over, the writes are the
      linked rows of the well-formed prefix, and they fail exactly when
      some entry is malformed. */
  lemma ReasonInsertsLinks(id: int, data: Json)
    requires data.JObj? && id != 0 && ColumnMap.ReasonsKey in data.fields
    requires LoopItems(data.fields[ColumnMap.ReasonsKey]).Some?
    ensures var items := LoopItems(data.fields[ColumnMap.ReasonsKey]).value;
      var w := ReasonInserts(Some(id), data);
      |w.rows| == WellFormedPrefix(items) &&
      (forall k :: 0 <= k < |w.rows| ==> w.rows[k] == ReasonRowOf(id, items[k])) &&
      (!w.failed <==> forall k :: 0 <= k < |items| ==> WellFormedReason(items[k]))
  {
    var items := LoopItems(data.fields[ColumnMap.ReasonsKey]).value;
    var n := WellFormedPrefix(items);
    assert ReasonInserts(Some(id), data).rows == LinkedRows(id, items[..n]);
  }

  /** With a truthy MAX(id) and a sharesRejectedReasons value whose loop
      fails before its first row (null, a number, a boolean, a non-empty
      string or object), the stats row stays, no reason row is written and
      the error is reported. */
  lemma StoreReportsNonIterableReasons(db: Database, data: Json)
    requires ValidDatabase(db) && StatsValues(data).Some?
    requires db.nextId != 0 && ColumnMap.ReasonsKey in data.fields
    requires LoopItems(data.fields[ColumnMap.ReasonsKey]).None?
    ensures StoreSpec(db, data) ==
      (Database(db.stats + [StatsRow(db.nextId, StatsValues(data).value)], db.reasons, db.nextId + 1), Reported)
  {
    var stats := db.stats + [StatsRow(db.nextId, StatsValues(data).value)];
    MaxIdIsLastInserted(stats);
    assert ReasonInserts(Some(db.nextId), data) == ReasonWrites([], true);
    assert db.reasons + [] == db.reasons;
  }

  /** No reason rows are written when the key is absent or MAX(id) is 0. */
  lemma NoReasonsWhenAbsentOrFalsy(db: Database, data: Json)
    requires ValidDatabase(db) && StatsValues(data).Some?
    requires db.nextId == 0 || ColumnMap.ReasonsKey !in data.fields
    ensures StoreSpec(db, data).0.reasons == db.reasons
    ensures StoreSpec(db, data).1 == Collected
  {
    MaxIdIsLastInserted(db.stats + [StatsRow(db.nextId, StatsValues(data).value)]);
  }

  /** A failed extraction changes nothing and leaves by an exception. */
  lemma CollectFailedExtraction(db: Database, resp: Response, soup: Soup, parse: Parser)
    requires ExtractJsonFromResponse(resp, soup, parse).Err?
    ensures CollectSpec(db, resp, soup, parse) == (db, Escaped)
  {
  }

  class MinerDataCollector {
    var stats: seq<StatsRow>
    var reasons: seq<ReasonRow>
    var nextId: int  // the next value the id sequence of mining_stats hands out

    function State(): Database
      reads this
    {
      Database(stats, reasons, nextId)
    }

    ghost predicate Valid()
      reads this
    {
      ValidDatabase(State())
    }

    /** duckdb.connect(db_path): the collector creates nothing, it works on
        the tables and the id sequence the database file already holds. */
    constructor (existing: Database)
      requires ValidDatabase(existing)
      ensures Valid() && State() == existing
    {
      stats, reasons, nextId := existing.stats, existing.reasons, existing.nextId;
    }

    /** One call of collect_and_store_data. */
    method CollectAndStoreData(resp: Response, soup: Soup, parse: Parser) returns (outcome: CollectOutcome)
      requires Valid()
      modifies this
      ensures Valid()
      ensures (State(), outcome) == CollectSpec(old(State()), resp, soup, parse)
    {
      var extracted := ExtractJsonFromResponse(resp, soup, parse);
      if extracted.Err? {
        return Escaped;
      }
      outcome := StoreMinerData(extracted.value);
    }

    /** minercollect.py lines 69-111: the insert, the MAX(id) lookup and the reason loop. */
    method StoreMinerData(data: Json) returns (outcome: CollectOutcome)
      requires Valid()
      modifies this
      ensures Valid()
      ensures (State(), outcome) == StoreSpec(old(State()), data)
    {
      StorePreservesValid(State(), data);
      var values := StatsValues(data);
      if values.None? {
        return Reported;
      }
      stats := stats + [StatsRow(nextId, values.value)];
      nextId := nextId + 1;
      var miningStatsId := MaxId(stats);
      if miningStatsId.None? || miningStatsId.value == 0 || ColumnMap.ReasonsKey !in data.fields {
        assert reasons + [] == reasons;
        return Collected;
      }
      var items := LoopItems(data.fields[ColumnMap.ReasonsKey]);
      if items.None? {
        assert reasons + [] == reasons;
        return Reported;
      }
      var failed := InsertReasons(miningStatsId.value, items.value);
      outcome := if failed then Reported else Collected;
    }

    /** minercollect.py lines 107-111: the for loop over the reasons list, one insert per
        entry, raising (failed) at the first entry without message or count. */
    method InsertReasons(id: int, entries: seq<Json>) returns (failed: bool)
      modifies this
      ensures stats == old(stats) && nextId == old(nextId)
      ensures reasons == old(reasons) + LinkedRows(id, entries[..WellFormedPrefix(entries)])
      ensures failed <==> WellFormedPrefix(entries) < |entries|
    {
      var i := 0;
      while i < |entries|
        invariant 0 <= i <= WellFormedPrefix(entries)
        invariant stats == old(stats) && nextId == old(nextId)
        invariant reasons == old(reasons) + LinkedRows(id, entries[..i])
      {
        var reason := entries[i];
        if !WellFormedReason(reason) {
          return true;
        }
        assert entries[..i + 1] == entries[..i] + [reason];
        reasons := reasons + [ReasonRowOf(id, reason)];
        i := i + 1;
      }
      assert entries[..i] == entries;
      return false;
    }
  }
}
