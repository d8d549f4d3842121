// The weather table of the updater (build_weather_data): for every day key
// a map from city key to that day's figures and risk, filled city by city
// from one forecast per city. The forecast request itself is an input here:
// per city either a failure or the four daily series the provider returned.

module Table {
  import opened Wrappers
  import opened Risk

  /** The day keys, in the order the trip visits them. */
  const DayKeys: seq<string> := ["jan3", "jan4", "jan5", "jan6", "jan7", "jan8", "jan9", "jan10"]

  /** The city keys, in the order the configuration lists them. */
  const CityKeys: seq<string> :=
    ["loctudy", "quimper", "rennes", "cancale", "avranches", "caen", "leMans", "rouen", "paris", "ambleville"]

  predicate Distinct(s: seq<string>) {
    forall a, b :: 0 <= a < b < |s| ==> s[a] != s[b]
  }

  lemma ConfigKeysDistinct()
    ensures Distinct(DayKeys) && Distinct(CityKeys)
  {
  }

  /**
   * A stored precipitation or snowfall figure: the integer 0 when the
   * forecast gave nothing or zero, otherwise the rounded float, in tenths.
   */
  datatype Num = Zero | Tenths(t: int)

  function NumValue(n: Num): int {
    match n
    case Zero => 0
    case Tenths(t) => t
  }

  /** One city's figures for one day, as stored in the table. */
  datatype Entry = Entry(high: int, low: int, precip: Num, snow: Num, risk: Tier, riskLabel: Label)

  /** One key/value pair of a day's map; a day's map is a list of them in insertion order. */
  datatype Row = Row(city: string, entry: Entry)

  /**
   * A provider's precipitation or snowfall value before rounding, as far
   * as the updater can tell it apart: missing (null), zero (a falsy
   * number), or a non-zero number whose rounding to one decimal is
   * `tenths` tenths. A non-zero value below 0.05 in magnitude is
   * `Value(0)`: it is truthy, yet rounds to 0.0.
   */
  datatype Raw = Missing | RawZero | Value(tenths: int)

  /**
   * What the forecast request gave for one city: a failure (network,
   * HTTP status, no "daily" object), or the four daily series. The
   * temperatures are optional values already rounded to tenths; the
   * precipitation and snowfall series keep their raw values.
   */
  datatype Forecast =
    | FetchFailed
    | Daily(maxTemp: seq<Option<int>>, minTemp: seq<Option<int>>,
            precipSum: seq<Raw>, snowSum: seq<Raw>)

  // ---------------------------------------------------------------------
  // A day's map as an insertion-ordered dictionary
  // ---------------------------------------------------------------------

  function Keys(rows: seq<Row>): (ks: seq<string>)
    ensures |ks| == |rows|
    ensures forall k :: 0 <= k < |rows| ==> ks[k] == rows[k].city
  {
    if rows == [] then [] else [rows[0].city] + Keys(rows[1..])
  }

  /** The value stored under `c`, if any. */
  function Lookup(rows: seq<Row>, c: string): (r: Option<Entry>)
    ensures r.None? <==> c !in Keys(rows)
  {
    if rows == [] then None
    else if rows[0].city == c then Some(rows[0].entry)
    else Lookup(rows[1..], c)
  }

  /** `d[c] = e`: an existing key keeps its place, a new key goes last. */
  function Put(rows: seq<Row>, c: string, e: Entry): (r: seq<Row>)
    ensures c in Keys(rows) ==> Keys(r) == Keys(rows)
    ensures c !in Keys(rows) ==> Keys(r) == Keys(rows) + [c]
  {
    if rows == [] then [Row(c, e)]
    else if rows[0].city == c then [Row(c, e)] + rows[1..]
    else [rows[0]] + Put(rows[1..], c, e)
  }

  /** After `d[c] = e`, `c` maps to `e` and every other key to what it did before. */
  lemma {:induction false} PutLookup(rows: seq<Row>, c: string, e: Entry, c': string)
    ensures Lookup(Put(rows, c, e), c') == if c' == c then Some(e) else Lookup(rows, c')
  {
    if rows != [] && rows[0].city != c {
      PutLookup(rows[1..], c, e, c');
      assert Put(rows, c, e)[1..] == Put(rows[1..], c, e);
    }
  }

  /** Storing under a new key appends the pair. */
  lemma {:induction false} PutNewKeyAppends(rows: seq<Row>, c: string, e: Entry)
    requires forall k :: 0 <= k < |rows| ==> rows[k].city != c
    ensures Put(rows, c, e) == rows + [Row(c, e)]
  {
    if rows != [] {
      PutNewKeyAppends(rows[1..], c, e);
      assert [rows[0]] + (rows[1..] + [Row(c, e)]) == rows + [Row(c, e)];
    }
  }

  // ---------------------------------------------------------------------
  // One day of one forecast
  // ---------------------------------------------------------------------

  /**
   * Whether reading day `i` of the forecast succeeds: both temperatures
   * must be present (rounding a missing one raises), and all four series
   * must reach index `i` (a shorter one raises an index error).
   */
  predicate DayReadable(f: Forecast, i: nat) {
    f.Daily? &&
    i < |f.maxTemp| && f.maxTemp[i].Some? &&
    i < |f.minTemp| && f.minTemp[i].Some? &&
    i < |f.precipSum| && i < |f.snowSum|
  }

  /**
   * A precipitation or snowfall value as stored: the integer 0 when the raw
   * value is falsy, otherwise the raw value rounded to tenths.
   */
  function Stored(v: Raw): (n: Num)
    ensures n.Zero? <==> v.Missing? || v.RawZero?
    ensures NumValue(n) == if v.Value? then v.tenths else 0
  {
    match v
    case Missing => Zero
    case RawZero => Zero
    case Value(t) => Tenths(t)
  }

  /** The entry a readable day is stored as: the figures and their risk. */
  function EntryAt(f: Forecast, i: nat): (e: Entry)
    requires DayReadable(f, i)
    ensures Consistent(e)
  {
    var high := f.maxTemp[i].value;
    var low := f.minTemp[i].value;
    var precip := Stored(f.precipSum[i]);
    var snow := Stored(f.snowSum[i]);
    var a := Classify(high, low, NumValue(snow), NumValue(precip));
    Entry(high, low, precip, snow, a.risk, a.riskLabel)
  }

  /** An entry whose risk is what the classifier gives for its own figures. */
  predicate Consistent(e: Entry) {
    Assessment(e.risk, e.riskLabel) == Classify(e.high, e.low, NumValue(e.snow), NumValue(e.precip))
  }

  /**
   * Whether the city's forecast is stored for day `i`: the fetch
   * succeeded and days 0 to `i` were all readable (the first unreadable
   * day ends that city's loop).
   */
  predicate Contributes(f: Forecast, i: nat)
    decreases i
  {
    DayReadable(f, i) && (i == 0 || Contributes(f, i - 1))
  }

  lemma {:induction false} ContributesEarlier(f: Forecast, i: nat, k: nat)
    requires Contributes(f, i) && k <= i
    ensures Contributes(f, k)
    decreases i
  {
    if k < i {
      ContributesEarlier(f, i - 1, k);
    }
  }

  // ---------------------------------------------------------------------
  // The table, specified
  // ---------------------------------------------------------------------

  /** Day `i`'s map once the cities `cities` have been processed in order. */
  function DayRows(cities: seq<string>, forecasts: seq<Forecast>, i: nat): seq<Row>
    requires |cities| == |forecasts|
    decreases |cities|
  {
    if |cities| == 0 then []
    else
      var n := |cities| - 1;
      DayRows(cities[..n], forecasts[..n], i)
        + (if Contributes(forecasts[n], i) then [Row(cities[n], EntryAt(forecasts[n], i))] else [])
  }

  /** The whole table: one map per day key. */
  function ExpectedTable(days: seq<string>, cities: seq<string>, forecasts: seq<Forecast>)
    : map<string, seq<Row>>
    requires Distinct(days) && |cities| == |forecasts|
  {
    map k | 0 <= k < |days| :: days[k] := DayRows(cities, forecasts, k)
  }

  lemma ExpectedTableAt(days: seq<string>, cities: seq<string>, forecasts: seq<Forecast>, k: nat)
    requires Distinct(days) && |cities| == |forecasts| && k < |days|
    ensures days[k] in ExpectedTable(days, cities, forecasts)
    ensures ExpectedTable(days, cities, forecasts)[days[k]] == DayRows(cities, forecasts, k)
  {
  }

  lemma ExpectedTableKeys(days: seq<string>, cities: seq<string>, forecasts: seq<Forecast>)
    requires Distinct(days) && |cities| == |forecasts|
    ensures forall d :: d in ExpectedTable(days, cities, forecasts) <==> d in days
  {
    forall d | d in days
      ensures d in ExpectedTable(days, cities, forecasts)
    {
      var k :| 0 <= k < |days| && days[k] == d;
      ExpectedTableAt(days, cities, forecasts, k);
    }
  }

  // ---------------------------------------------------------------------
  // What the table holds
  // ---------------------------------------------------------------------

  /** A day's map only has keys of processed cities. */
  lemma {:induction false} DayRowsKeys(cities: seq<string>, forecasts: seq<Forecast>, i: nat)
    requires |cities| == |forecasts|
    ensures forall c :: c in Keys(DayRows(cities, forecasts, i)) ==> c in cities
    decreases |cities|
  {
    if |cities| > 0 {
      var n := |cities| - 1;
      DayRowsKeys(cities[..n], forecasts[..n], i);
      var rows := DayRows(cities, forecasts, i);
      forall c | c in Keys(rows) ensures c in cities {
        var k :| 0 <= k < |rows| && Keys(rows)[k] == c;
        var front := DayRows(cities[..n], forecasts[..n], i);
        if k < |front| {
          assert rows[k] == front[k];
          assert c in Keys(front);
        }
      }
    }
  }

  /** A day's map is non-empty exactly when some city contributes to that day. */
  lemma {:induction false} DayRowsNonEmpty(cities: seq<string>, forecasts: seq<Forecast>, i: nat)
    requires |cities| == |forecasts|
    ensures |DayRows(cities, forecasts, i)| > 0 <==> exists j :: 0 <= j < |cities| && Contributes(forecasts[j], i)
    decreases |cities|
  {
    if |cities| > 0 {
      var n := |cities| - 1;
      DayRowsNonEmpty(cities[..n], forecasts[..n], i);
      if exists j :: 0 <= j < n && Contributes(forecasts[..n][j], i) {
        var j :| 0 <= j < n && Contributes(forecasts[..n][j], i);
        assert forecasts[..n][j] == forecasts[j];
      }
      if exists j :: 0 <= j < |cities| && Contributes(forecasts[j], i) {
        var j :| 0 <= j < |cities| && Contributes(forecasts[j], i);
        if j < n {
          assert forecasts[..n][j] == forecasts[j];
        }
      }
    }
  }

  /** The entry stored for city `j` on day `i`: present exactly when it contributes. */
  lemma {:induction false} LookupCity(cities: seq<string>, forecasts: seq<Forecast>, i: nat, j: nat)
    requires |cities| == |forecasts| && Distinct(cities) && j < |cities|
    ensures Lookup(DayRows(cities, forecasts, i), cities[j])
      == if Contributes(forecasts[j], i) then Some(EntryAt(forecasts[j], i)) else None
    decreases |cities|
  {
    var n := |cities| - 1;
    var front := DayRows(cities[..n], forecasts[..n], i);
    var tail := if Contributes(forecasts[n], i) then [Row(cities[n], EntryAt(forecasts[n], i))] else [];
    LookupAppend(front, tail, cities[j]);
    if j < n {
      LookupCity(cities[..n], forecasts[..n], i, j);
      assert cities[..n][j] == cities[j];
    } else {
      DayRowsKeys(cities[..n], forecasts[..n], i);
      assert cities[j] !in Keys(front);
    }
  }

  lemma {:induction false} LookupAppend(front: seq<Row>, tail: seq<Row>, c: string)
    ensures Lookup(front + tail, c) == if c in Keys(front) then Lookup(front, c) else Lookup(tail, c)
    decreases |front|
  {
    if front == [] {
      assert front + tail == tail;
    } else {
      var all := front + tail;
      assert all[0] == front[0] && all[1..] == front[1..] + tail;
      assert Keys(front) == [front[0].city] + Keys(front[1..]);
      if front[0].city != c {
        LookupAppend(front[1..], tail, c);
        assert Lookup(all, c) == Lookup(front[1..] + tail, c);
      }
    }
  }

  /** Every stored risk is the classifier's verdict on the stored figures. */
  lemma {:induction false} RowsConsistent(cities: seq<string>, forecasts: seq<Forecast>, i: nat)
    requires |cities| == |forecasts|
    ensures forall r :: r in DayRows(cities, forecasts, i) ==> Consistent(r.entry)
    decreases |cities|
  {
    if |cities| > 0 {
      var n := |cities| - 1;
      RowsConsistent(cities[..n], forecasts[..n], i);
    }
  }

  /**
   * A missing or zero precipitation or snowfall value is stored as the
   * integer 0; any other raw value is stored as its rounding, even when
   * that rounding is 0.
   */
  lemma FalsyStoredAsZero(f: Forecast, i: nat)
    requires DayReadable(f, i)
    ensures EntryAt(f, i).precip == Zero <==> f.precipSum[i].Missing? || f.precipSum[i].RawZero?
    ensures EntryAt(f, i).snow == Zero <==> f.snowSum[i].Missing? || f.snowSum[i].RawZero?
    ensures f.precipSum[i].Value? ==> EntryAt(f, i).precip == Tenths(f.precipSum[i].tenths)
    ensures f.snowSum[i].Value? ==> EntryAt(f, i).snow == Tenths(f.snowSum[i].tenths)
    ensures EntryAt(f, i).high == f.maxTemp[i].value && EntryAt(f, i).low == f.minTemp[i].value
  {
  }

  /** A city whose fetch fails has no entry on any day. */
  lemma FailedCityAbsent(cities: seq<string>, forecasts: seq<Forecast>, i: nat, j: nat)
    requires |cities| == |forecasts| && Distinct(cities) && j < |cities|
    requires forecasts[j].FetchFailed?
    ensures cities[j] !in Keys(DayRows(cities, forecasts, i))
  {
    LookupCity(cities, forecasts, i, j);
  }

  /**
   * A city whose day `i` cannot be read keeps its entries for the days
   * before the first unreadable one and has none from `i` on.
   */
  lemma FailureKeepsEarlierDays(cities: seq<string>, forecasts: seq<Forecast>, j: nat, i: nat, k: nat)
    requires |cities| == |forecasts| && Distinct(cities) && j < |cities|
    requires !DayReadable(forecasts[j], i)
    requires forall d :: 0 <= d < i ==> DayReadable(forecasts[j], d)
    ensures k < i ==> Lookup(DayRows(cities, forecasts, k), cities[j]) == Some(EntryAt(forecasts[j], k))
    ensures k >= i ==> Lookup(DayRows(cities, forecasts, k), cities[j]) == None
  {
    LookupCity(cities, forecasts, k, j);
    if k < i {
      AllReadableContributes(forecasts[j], k);
    } else if Contributes(forecasts[j], k) {
      ContributesEarlier(forecasts[j], k, i);
    }
  }

  lemma {:induction false} AllReadableContributes(f: Forecast, k: nat)
    requires forall d :: 0 <= d <= k ==> DayReadable(f, d)
    ensures Contributes(f, k)
    decreases k
  {
    if k > 0 {
      AllReadableContributes(f, k - 1);
    }
  }

  /** A city's forecast decides its own entries and nobody else's. */
  lemma OtherCitiesUnaffected(cities: seq<string>, forecasts: seq<Forecast>, j: nat, g: Forecast, i: nat, c: nat)
    requires |cities| == |forecasts| && Distinct(cities) && j < |cities| && c < |cities| && c != j
    ensures Lookup(DayRows(cities, forecasts[j := g], i), cities[c])
      == Lookup(DayRows(cities, forecasts, i), cities[c])
  {
    LookupCity(cities, forecasts, i, c);
    LookupCity(cities, forecasts[j := g], i, c);
  }

  // ---------------------------------------------------------------------
  // The builder
  // ---------------------------------------------------------------------

  /** Processing one more city extends each day's map by that city's entry, if any. */
  lemma DayRowsStep(cities: seq<string>, forecasts: seq<Forecast>, j: nat, i: nat)
    requires |cities| == |forecasts| && j < |cities|
    ensures DayRows(cities[..j + 1], forecasts[..j + 1], i)
      == DayRows(cities[..j], forecasts[..j], i)
        + (if Contributes(forecasts[j], i) then [Row(cities[j], EntryAt(forecasts[j], i))] else [])
  {
    assert cities[..j + 1][..j] == cities[..j] && forecasts[..j + 1][..j] == forecasts[..j];
  }

  /** Storing a contributing day of city `j` turns the map before it into the map after it. */
  lemma StoreDay(rows: seq<Row>, cities: seq<string>, forecasts: seq<Forecast>, j: nat, i: nat)
    requires |cities| == |forecasts| && Distinct(cities) && j < |cities|
    requires rows == DayRows(cities[..j], forecasts[..j], i)
    requires Contributes(forecasts[j], i)
    ensures Put(rows, cities[j], EntryAt(forecasts[j], i)) == DayRows(cities[..j + 1], forecasts[..j + 1], i)
  {
    DayRowsKeys(cities[..j], forecasts[..j], i);
    assert cities[j] !in cities[..j];
    forall k | 0 <= k < |rows|
      ensures rows[k].city != cities[j]
    {
      assert Keys(rows)[k] == rows[k].city;
    }
    PutNewKeyAppends(rows, cities[j], EntryAt(forecasts[j], i));
    DayRowsStep(cities, forecasts, j, i);
  }

  /** Days `lo` to `hi` of `t` hold what the first `n` cities give them. */
  predicate HoldsFirst(t: map<string, seq<Row>>, days: seq<string>, lo: nat, hi: nat,
                       cities: seq<string>, forecasts: seq<Forecast>, n: nat)
    requires hi <= |days| && n <= |cities| == |forecasts|
  {
    forall i' :: lo <= i' < hi ==> days[i'] in t && t[days[i']] == DayRows(cities[..n], forecasts[..n], i')
  }

  /**
   * The state of city `j`'s day loop before day `i`: the day keys are
   * unchanged, days before `i` were all read and hold the first `j + 1`
   * cities, the days from `i` on still hold the first `j`.
   */
  ghost predicate CityMidway(t: map<string, seq<Row>>, days: seq<string>, cities: seq<string>,
                       forecasts: seq<Forecast>, j: nat, i: nat)
  {
    i <= |days| && j < |cities| == |forecasts| &&
    (forall d :: d in t <==> d in days) &&
    (i > 0 ==> Contributes(forecasts[j], i - 1)) &&
    HoldsFirst(t, days, 0, i, cities, forecasts, j + 1) &&
    HoldsFirst(t, days, i, |days|, cities, forecasts, j)
  }

  /** Storing day `i` of city `j` moves that day from the old rows to the new ones. */
  lemma StoreStep(t: map<string, seq<Row>>, days: seq<string>, cities: seq<string>,
                  forecasts: seq<Forecast>, j: nat, i: nat)
    requires Distinct(days) && Distinct(cities)
    requires CityMidway(t, days, cities, forecasts, j, i) && i < |days| && DayReadable(forecasts[j], i)
    ensures CityMidway(t[days[i] := Put(t[days[i]], cities[j], EntryAt(forecasts[j], i))],
                       days, cities, forecasts, j, i + 1)
  {
    assert Contributes(forecasts[j], i);
    StoreDay(t[days[i]], cities, forecasts, j, i);
    var t' := t[days[i] := Put(t[days[i]], cities[j], EntryAt(forecasts[j], i))];
    forall i' | 0 <= i' < |days| && i' != i
      ensures days[i'] in t' && t'[days[i']] == t[days[i']]
    {
      assert days[i'] != days[i];
    }
    assert HoldsFirst(t', days, 0, i + 1, cities, forecasts, j + 1);
    assert HoldsFirst(t', days, i + 1, |days|, cities, forecasts, j);
  }

  /** From the first day city `j` cannot read, its maps are as they were. */
  lemma SkipRest(t: map<string, seq<Row>>, days: seq<string>, cities: seq<string>,
                 forecasts: seq<Forecast>, j: nat, i: nat)
    requires CityMidway(t, days, cities, forecasts, j, i)
    requires i < |days| ==> !DayReadable(forecasts[j], i)
    ensures HoldsFirst(t, days, 0, |days|, cities, forecasts, j + 1)
  {
    forall i' | i <= i' < |days|
      ensures t[days[i']] == DayRows(cities[..j + 1], forecasts[..j + 1], i')
    {
      if Contributes(forecasts[j], i') {
        ContributesEarlier(forecasts[j], i', i);
      }
      DayRowsStep(cities, forecasts, j, i');
    }
  }

  /** The day loop of city `j`: one entry per day, until the first day that cannot be read. */
  method AddCity(table: map<string, seq<Row>>, days: seq<string>, cities: seq<string>,
                 forecasts: seq<Forecast>, j: nat)
    returns (t: map<string, seq<Row>>)
    requires Distinct(days) && Distinct(cities) && |cities| == |forecasts| && j < |cities|
    requires forall d :: d in table <==> d in days
    requires HoldsFirst(table, days, 0, |days|, cities, forecasts, j)
    ensures forall d :: d in t <==> d in days
    ensures HoldsFirst(t, days, 0, |days|, cities, forecasts, j + 1)
  {
    t := table;
    var i := 0;
    while i < |days|
      invariant CityMidway(t, days, cities, forecasts, j, i)
    {
      if !DayReadable(forecasts[j], i) {
        // one of the four reads raised: the rest of this city is skipped
        break;
      }
      StoreStep(t, days, cities, forecasts, j, i);
      t := t[days[i] := Put(t[days[i]], cities[j], EntryAt(forecasts[j], i))];
      i := i + 1;
    }
    SkipRest(t, days, cities, forecasts, j, i);
  }

  /** A table holding DayRows under each day key is the expected table. */
  lemma IsExpectedTable(table: map<string, seq<Row>>, days: seq<string>, cities: seq<string>, forecasts: seq<Forecast>)
    requires Distinct(days) && |cities| == |forecasts|
    requires forall d :: d in table <==> d in days
    requires HoldsFirst(table, days, 0, |days|, cities, forecasts, |cities|)
    ensures table == ExpectedTable(days, cities, forecasts)
  {
    assert cities[..|cities|] == cities && forecasts[..|forecasts|] == forecasts;
    ExpectedTableKeys(days, cities, forecasts);
    forall d | d in table
      ensures table[d] == ExpectedTable(days, cities, forecasts)[d]
    {
      var k :| 0 <= k < |days| && days[k] == d;
      ExpectedTableAt(days, cities, forecasts, k);
    }
  }

  /**
   * build_weather_data: an empty map for every day key, then, city by
   * city, the entries for the days that can be read, until the first day
   * that cannot.
   */
  method BuildWeatherData(days: seq<string>, cities: seq<string>, forecasts: seq<Forecast>)
    returns (table: map<string, seq<Row>>)
    requires Distinct(days) && Distinct(cities) && |cities| == |forecasts|
    ensures table == ExpectedTable(days, cities, forecasts)
  {
    table := map[];
    for k := 0 to |days|
      invariant forall d :: d in table <==> d in days[..k]
      invariant forall d :: d in table ==> table[d] == []
    {
      table := table[days[k] := []];
    }
    assert days[..|days|] == days;
    for j := 0 to |cities|
      invariant forall d :: d in table <==> d in days
      invariant HoldsFirst(table, days, 0, |days|, cities, forecasts, j)
    {
      table := AddCity(table, days, cities, forecasts, j);
    }
    IsExpectedTable(table, days, cities, forecasts);
  }
}
