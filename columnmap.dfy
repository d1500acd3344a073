/** The column list and source-key list of the mining_stats insert
    (INSERT INTO mining_stats (...) SELECT ... FROM read_json(...)): the insert
    pairs them by position. Each list is written as the concatenation of the
    statement's lines, in the statement's order. */
module ColumnMap {

  /** Destination columns of mining_stats, in the order of the INSERT. */
  const Columns: seq<string> :=
    ((((["hostname", "mac_address", "power", "voltage", "current", "temp", "vr_temp"] +
            ["hash_rate", "expected_hashrate", "frequency", "shares_accepted"]) +
          (["shares_rejected", "uptime_seconds", "asic_count", "small_core_count"] +
            ["asic_model", "stratum_url", "stratum_port", "stratum_user"])) +
        ((["version", "idf_version", "board_version", "running_partition"] +
            ["ssid", "wifi_status", "wifi_rssi", "core_voltage", "core_voltage_actual"]) +
          ["best_diff", "best_session_diff", "stratum_diff", "max_power"])) +
      (((["nominal_voltage", "is_using_fallback_stratum", "is_psram_available"] +
            ["free_heap", "ap_enabled", "overheat_mode", "overclock_enabled"]) +
          ["display", "flip_screen", "invert_screen", "display_timeout"]) +
        ((["auto_fan_speed", "fan_speed", "temp_target", "fan_rpm"] +
            ["fallback_stratum_url", "fallback_stratum_port", "fallback_stratum_user"]) +
          ["stats_limit", "stats_duration"])))

  /** Payload keys selected from the device's JSON, in the order of the SELECT. */
  const SourceKeys: seq<string> :=
    ((((["hostname", "macAddr", "power", "voltage", "current", "temp", "vrTemp"] +
            ["hashRate", "expectedHashrate", "frequency", "sharesAccepted"]) +
          (["sharesRejected", "uptimeSeconds", "asicCount", "smallCoreCount"] +
            ["ASICModel", "stratumURL", "stratumPort", "stratumUser"])) +
        ((["version", "idfVersion", "boardVersion", "runningPartition"] +
            ["ssid", "wifiStatus", "wifiRSSI", "coreVoltage", "coreVoltageActual"]) +
          ["bestDiff", "bestSessionDiff", "stratumDiff", "maxPower"])) +
      (((["nominalVoltage", "isUsingFallbackStratum", "isPSRAMAvailable"] +
            ["freeHeap", "apEnabled", "overheat_mode", "overclockEnabled"]) +
          ["display", "flipscreen", "invertscreen", "displayTimeout"]) +
        ((["autofanspeed", "fanspeed", "temptarget", "fanrpm"] +
            ["fallbackStratumURL", "fallbackStratumPort", "fallbackStratumUser"]) +
          ["statsLimit", "statsDuration"])))

  /** The payload key holding the rejection-reason list; it is not a column. */
  const ReasonsKey: string := "sharesRejectedReasons"

  /** The first position of x in s. */
  function IndexOf(s: seq<string>, x: string): (k: nat)
    requires x in s
    ensures k < |s| && s[k] == x
    ensures forall j :: 0 <= j < k ==> s[j] != x
  {
    if s[0] == x then 0 else 1 + IndexOf(s[1..], x)
  }

  /** No name occurs twice in s at positions from lo on. */
  predicate DistinctFrom(s: seq<string>, lo: nat)
  {
    forall i, j :: lo <= i < j < |s| ==> s[i] != s[j]
  }

  /** Names at positions [lo, hi) do not recur later in s. */
  predicate UniqueBetween(s: seq<string>, lo: nat, hi: nat)
  {
    forall i, j :: lo <= i < hi && i < j < |s| ==> s[i] != s[j]
  }

  lemma {:induction false} UniqueParts(s: seq<string>, a: nat, b: nat, c: nat)
    requires a <= b <= c
    requires UniqueBetween(s, a, b) && UniqueBetween(s, b, c)
    ensures UniqueBetween(s, a, c)
  {
  }

  // That no name repeats is shown range by range: lemma <List>Unique<lo>
  // shows that no name at a position in [lo, hi) occurs again further on,
  // for consecutive cuts 0, 1, 2, 3, 5, 8, 11, 14, 18, 22, 27, 32, 40, 52, and
  // ColumnsDistinct and SourceKeysDistinct join the ranges with UniqueParts.
  // Each range is small enough for the verifier to check by enumeration.

  lemma ColumnsUnique0()
    ensures UniqueBetween(Columns, 0, 1)
  {
  }

  lemma ColumnsUnique1()
    ensures UniqueBetween(Columns, 1, 2)
  {
  }

  lemma ColumnsUnique2()
    ensures UniqueBetween(Columns, 2, 3)
  {
  }

  lemma ColumnsUnique3()
    ensures UniqueBetween(Columns, 3, 5)
  {
  }

  lemma ColumnsUnique5()
    ensures UniqueBetween(Columns, 5, 8)
  {
  }

  lemma ColumnsUnique8()
    ensures UniqueBetween(Columns, 8, 11)
  {
  }

  lemma ColumnsUnique11()
    ensures UniqueBetween(Columns, 11, 14)
  {
  }

  lemma ColumnsUnique14()
    ensures UniqueBetween(Columns, 14, 18)
  {
  }

  lemma ColumnsUnique18()
    ensures UniqueBetween(Columns, 18, 22)
  {
  }

  lemma ColumnsUnique22()
    ensures UniqueBetween(Columns, 22, 27)
  {
  }

  lemma ColumnsUnique27()
    ensures UniqueBetween(Columns, 27, 32)
  {
  }

  lemma ColumnsUnique32()
    ensures UniqueBetween(Columns, 32, 40)
  {
  }

  lemma ColumnsUnique40()
    ensures UniqueBetween(Columns, 40, 52)
  {
  }

  lemma SourceKeysUnique0()
    ensures UniqueBetween(SourceKeys, 0, 1)
  {
  }

  lemma SourceKeysUnique1()
    ensures UniqueBetween(SourceKeys, 1, 2)
  {
  }

  lemma SourceKeysUnique2()
    ensures UniqueBetween(SourceKeys, 2, 3)
  {
  }

  lemma SourceKeysUnique3()
    ensures UniqueBetween(SourceKeys, 3, 5)
  {
  }

  lemma SourceKeysUnique5()
    ensures UniqueBetween(SourceKeys, 5, 8)
  {
  }

  lemma SourceKeysUnique8()
    ensures UniqueBetween(SourceKeys, 8, 11)
  {
  }

  lemma SourceKeysUnique11()
    ensures UniqueBetween(SourceKeys, 11, 14)
  {
  }

  lemma SourceKeysUnique14()
    ensures UniqueBetween(SourceKeys, 14, 18)
  {
  }

  lemma SourceKeysUnique18()
    ensures UniqueBetween(SourceKeys, 18, 22)
  {
  }

  lemma SourceKeysUnique22()
    ensures UniqueBetween(SourceKeys, 22, 27)
  {
  }

  lemma SourceKeysUnique27()
    ensures UniqueBetween(SourceKeys, 27, 32)
  {
  }

  lemma SourceKeysUnique32()
    ensures UniqueBetween(SourceKeys, 32, 40)
  {
  }

  lemma SourceKeysUnique40()
    ensures UniqueBetween(SourceKeys, 40, 52)
  {
  }

  /** No destination column is named twice. */
  lemma ColumnsDistinct()
    ensures |Columns| == 52 && DistinctFrom(Columns, 0)
  {
    ColumnsUnique0(); ColumnsUnique1(); ColumnsUnique2(); ColumnsUnique3(); ColumnsUnique5(); ColumnsUnique8(); ColumnsUnique11(); ColumnsUnique14(); ColumnsUnique18(); ColumnsUnique22(); ColumnsUnique27(); ColumnsUnique32(); ColumnsUnique40();
    UniqueParts(Columns, 0, 1, 2);
    UniqueParts(Columns, 0, 2, 3);
    UniqueParts(Columns, 0, 3, 5);
    UniqueParts(Columns, 0, 5, 8);
    UniqueParts(Columns, 0, 8, 11);
    UniqueParts(Columns, 0, 11, 14);
    UniqueParts(Columns, 0, 14, 18);
    UniqueParts(Columns, 0, 18, 22);
    UniqueParts(Columns, 0, 22, 27);
    UniqueParts(Columns, 0, 27, 32);
    UniqueParts(Columns, 0, 32, 40);
    UniqueParts(Columns, 0, 40, 52);
  }

  /** No payload key is selected twice. */
  lemma SourceKeysDistinct()
    ensures |SourceKeys| == 52 && DistinctFrom(SourceKeys, 0)
  {
    SourceKeysUnique0(); SourceKeysUnique1(); SourceKeysUnique2(); SourceKeysUnique3(); SourceKeysUnique5(); SourceKeysUnique8(); SourceKeysUnique11(); SourceKeysUnique14(); SourceKeysUnique18(); SourceKeysUnique22(); SourceKeysUnique27(); SourceKeysUnique32(); SourceKeysUnique40();
    UniqueParts(SourceKeys, 0, 1, 2);
    UniqueParts(SourceKeys, 0, 2, 3);
    UniqueParts(SourceKeys, 0, 3, 5);
    UniqueParts(SourceKeys, 0, 5, 8);
    UniqueParts(SourceKeys, 0, 8, 11);
    UniqueParts(SourceKeys, 0, 11, 14);
    UniqueParts(SourceKeys, 0, 14, 18);
    UniqueParts(SourceKeys, 0, 18, 22);
    UniqueParts(SourceKeys, 0, 22, 27);
    UniqueParts(SourceKeys, 0, 27, 32);
    UniqueParts(SourceKeys, 0, 32, 40);
    UniqueParts(SourceKeys, 0, 40, 52);
  }

  /** The pairing is one-to-one: 52 columns and 52 keys, no name repeated on
      either side, and the rejection-reason list is not among the keys. */
  lemma ColumnMappingIsOneToOne()
    ensures |Columns| == |SourceKeys| == 52
    ensures DistinctFrom(Columns, 0) && DistinctFrom(SourceKeys, 0)
    ensures ReasonsKey !in SourceKeys
  {
    ColumnsDistinct();
    SourceKeysDistinct();
  }

  /** Some of the renamings the positional pairing performs. */
  lemma ColumnMappingSamples()
    ensures Columns[1] == "mac_address" && SourceKeys[1] == "macAddr"
    ensures Columns[15] == "asic_model" && SourceKeys[15] == "ASICModel"
    ensures Columns[37] == "overheat_mode" && SourceKeys[37] == "overheat_mode"
    ensures Columns[40] == "flip_screen" && SourceKeys[40] == "flipscreen"
    ensures Columns[51] == "stats_duration" && SourceKeys[51] == "statsDuration"
  {
  }
}
