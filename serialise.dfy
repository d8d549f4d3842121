// The JavaScript object literal the updater writes into the page
// (format_weather_js): a header line, then per day key an opening line,
// the day's city lines joined by ",\n", and a closing line, then a footer.

module Serialise {
  import opened Text
  import opened Risk
  import opened Table

  const Header: string := "        const weatherData = {"
  const Footer: string := "        };"
  const DayClose: string := "            },"

  /** The fixed text around the day key on a day's opening line. */
  const DayOpenLead: string := "            \""
  const DayOpenTail: string := "\": {"

  function DayOpen(day: string): string {
    DayOpenLead + day + DayOpenTail
  }

  /** The text of a figure: the integer 0, or the float of its tenths. */
  function NumText(n: Num): string {
    match n
    case Zero => "0"
    case Tenths(t) => TenthsText(t)
  }

  /**
   * How a stored precipitation or snowfall figure prints: as `0` exactly
   * when the raw value was missing or zero, and otherwise as a float text
   * that reads back as the raw value's rounding, `0.0` for a non-zero
   * value that rounds to nothing.
   */
  lemma StoredText(v: Raw)
    ensures NumText(Stored(v)) == "0" <==> v.Missing? || v.RawZero?
    ensures v.Value? ==> ParseTenths(NumText(Stored(v))) == v.tenths
    ensures v == Value(0) ==> NumText(Stored(v)) == "0.0"
  {
    if v.Value? {
      TenthsTextShape(v.tenths);
      TenthsTextRoundTrip(v.tenths);
    }
  }

  /** One city's line of a day block. */
  function CityLine(r: Row): string {
    "                " + r.city + ": { " + FiguresText(r.entry) + RiskText(r.entry)
  }

  /** The four figures of a city line, each followed by ", ". */
  function FiguresText(e: Entry): string {
    "high: " + TenthsText(e.high) + ", low: " + TenthsText(e.low) + ", "
      + "precip: " + NumText(e.precip) + ", snow: " + NumText(e.snow) + ", "
  }

  /** The tier and the label of a city line, then the closing brace. */
  function RiskText(e: Entry): string {
    "risk: \"" + TierText(e.risk) + "\", riskLabel: \"" + LabelText(e.riskLabel) + "\" }"
  }

  /** The line of each row, in order. */
  function CityLines(rows: seq<Row>): (ls: seq<string>)
    ensures |ls| == |rows|
  {
    Map(CityLine, rows)
  }

  /** A day's city lines joined by a comma and a line break. */
  function CityBlock(rows: seq<Row>): string {
    Join(",\n", CityLines(rows))
  }

  // ---------------------------------------------------------------------
  // The layout, for any day keys and any city blocks
  // ---------------------------------------------------------------------

  /** The three lines a day contributes: opening, its city block, closing. */
  function DayBlock(day: string, cities: string): seq<string> {
    [DayOpen(day), cities, DayClose]
  }

  /** The day blocks of `days` with the city blocks `cities`, one after the other. */
  function Body(days: seq<string>, cities: seq<string>): (ls: seq<string>)
    requires |days| == |cities|
    ensures |ls| == 3 * |days|
    decreases |days|
  {
    if |days| == 0 then []
    else
      var n := |days| - 1;
      Body(days[..n], cities[..n]) + DayBlock(days[n], cities[n])
  }

  /** The header, the day blocks and the footer. */
  function Layout(days: seq<string>, cities: seq<string>): seq<string>
    requires |days| == |cities|
  {
    [Header] + Body(days, cities) + [Footer]
  }

  /** One more day adds its three lines at the end of the body. */
  lemma BodySnoc(days: seq<string>, cities: seq<string>, day: string, c: string)
    requires |days| == |cities|
    ensures Body(days + [day], cities + [c]) == Body(days, cities) + DayBlock(day, c)
  {
    assert (days + [day])[..|days|] == days;
    assert (cities + [c])[..|days|] == cities;
  }

  /** Day `k`'s three lines sit at 3k to 3k + 2 of the body. */
  lemma {:induction false} BodyShape(days: seq<string>, cities: seq<string>)
    requires |days| == |cities|
    ensures forall k :: 0 <= k < |days| ==> Body(days, cities)[3 * k..3 * k + 3] == DayBlock(days[k], cities[k])
    decreases |days|
  {
    if |days| > 0 {
      var n := |days| - 1;
      BodyShape(days[..n], cities[..n]);
      var front := Body(days[..n], cities[..n]);
      var all := Body(days, cities);
      forall k | 0 <= k < |days|
        ensures all[3 * k..3 * k + 3] == DayBlock(days[k], cities[k])
      {
        if k < n {
          assert all[3 * k..3 * k + 3] == front[3 * k..3 * k + 3];
          assert days[..n][k] == days[k] && cities[..n][k] == cities[k];
        }
      }
    }
  }

  /**
   * The header first, the footer last, and between them, day after day in
   * the order of `days`, its key line, its city block and its closing line.
   */
  lemma LayoutShape(days: seq<string>, cities: seq<string>)
    requires |days| == |cities|
    ensures |Layout(days, cities)| == 3 * |days| + 2
    ensures Layout(days, cities)[0] == Header
    ensures Layout(days, cities)[3 * |days| + 1] == Footer
    ensures forall k :: 0 <= k < |days| ==>
      Layout(days, cities)[3 * k + 1] == DayOpen(days[k]) &&
      Layout(days, cities)[3 * k + 2] == cities[k] &&
      Layout(days, cities)[3 * k + 3] == DayClose
  {
    BodyShape(days, cities);
    var body := Body(days, cities);
    var ls := Layout(days, cities);
    assert ls == [Header] + body + [Footer];
    forall k | 0 <= k < |days|
      ensures ls[3 * k + 1] == DayOpen(days[k]) && ls[3 * k + 2] == cities[k] && ls[3 * k + 3] == DayClose
    {
      var b := body[3 * k..3 * k + 3];
      assert b == DayBlock(days[k], cities[k]);
      assert ls[3 * k + 1] == b[0] && ls[3 * k + 2] == b[1] && ls[3 * k + 3] == b[2];
    }
  }

  // ---------------------------------------------------------------------
  // The layout of a table
  // ---------------------------------------------------------------------

  /** `f` applied to each element of `xs`, in order. */
  function Map<A, B>(f: A -> B, xs: seq<A>): (ys: seq<B>)
    ensures |ys| == |xs|
    decreases |xs|
  {
    if |xs| == 0 then [] else Map(f, xs[..|xs| - 1]) + [f(xs[|xs| - 1])]
  }

  lemma {:induction false} MapAt<A, B>(f: A -> B, xs: seq<A>, k: nat)
    requires k < |xs|
    ensures Map(f, xs)[k] == f(xs[k])
    decreases |xs|
  {
    var n := |xs| - 1;
    if k < n {
      MapAt(f, xs[..n], k);
    }
  }

  lemma MapSnoc<A, B>(f: A -> B, xs: seq<A>, x: A)
    ensures Map(f, xs + [x]) == Map(f, xs) + [f(x)]
  {
    assert (xs + [x])[..|xs|] == xs;
  }

  /** The rows of each of `days`, in that order. */
  function DayTables(table: map<string, seq<Row>>, days: seq<string>): (rs: seq<seq<Row>>)
    requires forall k :: 0 <= k < |days| ==> days[k] in table
    ensures |rs| == |days|
    ensures forall k :: 0 <= k < |days| ==> rs[k] == table[days[k]]
  {
    seq(|days|, k requires 0 <= k < |days| => table[days[k]])
  }

  /** All the lines `format_weather_js` joins with "\n". */
  function JsLines(table: map<string, seq<Row>>, days: seq<string>): seq<string>
    requires forall k :: 0 <= k < |days| ==> days[k] in table
  {
    Layout(days, Map(CityBlock, DayTables(table, days)))
  }

  /** format_weather_js: the `lines` list built day by day, then joined. */
  method FormatWeatherJs(table: map<string, seq<Row>>, days: seq<string>) returns (js: string)
    requires forall k :: 0 <= k < |days| ==> days[k] in table
    ensures js == Join("\n", JsLines(table, days))
  {
    var lines := [Header];
    ghost var texts: seq<string> := [];
    for k := 0 to |days|
      invariant texts == Map(CityBlock, DayTables(table, days[..k]))
      invariant lines == [Header] + Body(days[..k], texts)
    {
      var cities := FormatCities(table[days[k]]);
      LinesStep(CityBlock, table, days, k, texts, lines, cities);
      // the three appends of one day: its key line, its cities, the closing brace
      lines := lines + [DayOpen(days[k]), cities, DayClose];
      texts := texts + [cities];
    }
    LinesDone(table, days, texts, lines);
    lines := lines + [Footer];
    js := Join("\n", lines);
  }

  /**
   * One pass of the day loop keeps `lines` the layout of the days seen so
   * far, whatever `render` makes of a day's rows.
   */
  lemma LinesStep(render: seq<Row> -> string, table: map<string, seq<Row>>, days: seq<string>, k: nat,
                  texts: seq<string>, lines: seq<string>, cities: string)
    requires forall k :: 0 <= k < |days| ==> days[k] in table
    requires k < |days|
    requires texts == Map(render, DayTables(table, days[..k]))
    requires lines == [Header] + Body(days[..k], texts)
    requires cities == render(table[days[k]])
    ensures texts + [cities] == Map(render, DayTables(table, days[..k + 1]))
    ensures lines + [DayOpen(days[k]), cities, DayClose] == [Header] + Body(days[..k + 1], texts + [cities])
  {
    TextsStep(render, table, days, k);
    BodySnoc(days[..k], texts, days[k], cities);
    assert days[..k + 1] == days[..k] + [days[k]];
  }

  lemma TextsStep(render: seq<Row> -> string, table: map<string, seq<Row>>, days: seq<string>, k: nat)
    requires forall k :: 0 <= k < |days| ==> days[k] in table
    requires k < |days|
    ensures Map(render, DayTables(table, days[..k + 1])) == Map(render, DayTables(table, days[..k])) + [render(table[days[k]])]
  {
    DayTablesSnoc(table, days, k);
    MapSnoc(render, DayTables(table, days[..k]), table[days[k]]);
  }

  lemma LinesDone(table: map<string, seq<Row>>, days: seq<string>, texts: seq<string>, lines: seq<string>)
    requires forall k :: 0 <= k < |days| ==> days[k] in table
    requires texts == Map(CityBlock, DayTables(table, days[..|days|]))
    requires lines == [Header] + Body(days[..|days|], texts)
    ensures lines + [Footer] == JsLines(table, days)
  {
    assert days[..|days|] == days;
  }

  lemma DayTablesSnoc(table: map<string, seq<Row>>, days: seq<string>, k: nat)
    requires forall k :: 0 <= k < |days| ==> days[k] in table
    requires k < |days|
    ensures DayTables(table, days[..k + 1]) == DayTables(table, days[..k]) + [table[days[k]]]
  {
  }

  /** The `city_lines` loop of one day, joined with ",\n". */
  method FormatCities(rows: seq<Row>) returns (text: string)
    ensures text == CityBlock(rows)
  {
    var cityLines := [];
    for m := 0 to |rows|
      invariant cityLines == CityLines(rows[..m])
    {
      assert rows[..m + 1] == rows[..m] + [rows[m]];
      MapSnoc(CityLine, rows[..m], rows[m]);
      cityLines := cityLines + [CityLine(rows[m])];
    }
    assert rows[..|rows|] == rows;
    text := Join(",\n", cityLines);
  }

  // ---------------------------------------------------------------------
  // The shape of the text
  // ---------------------------------------------------------------------

  /**
   * One opening line, one city block and one closing line per day, in the
   * order of `days`, between the header and the footer.
   */
  lemma DayLines(table: map<string, seq<Row>>, days: seq<string>, k: nat)
    requires forall k :: 0 <= k < |days| ==> days[k] in table
    requires k < |days|
    ensures |JsLines(table, days)| == 3 * |days| + 2
    ensures JsLines(table, days)[3 * k + 1] == DayOpen(days[k])
    ensures JsLines(table, days)[3 * k + 2] == CityBlock(table[days[k]])
    ensures JsLines(table, days)[3 * k + 3] == DayClose
  {
    var rs := DayTables(table, days);
    LayoutShape(days, Map(CityBlock, rs));
    MapAt(CityBlock, rs, k);
  }

  /** The text starts with the header line and ends with the footer line. */
  lemma JsTextBounds(table: map<string, seq<Row>>, days: seq<string>)
    requires forall k :: 0 <= k < |days| ==> days[k] in table
    ensures var js := Join("\n", JsLines(table, days));
      |Header| < |js| && js[..|Header|] == Header && js[|js| - |Footer|..] == Footer
  {
    var ls := JsLines(table, days);
    LayoutShape(days, Map(CityBlock, DayTables(table, days)));
    JoinStartsWithFirst("\n", ls);
    JoinEndsWithLast("\n", ls);
  }

  /**
   * A day with cities ends its block with the last city's line, which
   * closes with " }": there is no comma after the last city.
   */
  lemma NoTrailingComma(rows: seq<Row>)
    requires |rows| > 0
    ensures var b := CityBlock(rows); |b| >= 2 && b[|b| - 2..] == " }"
  {
    var ls := CityLines(rows);
    JoinEndsWithLast(",\n", ls);
    var b := Join(",\n", ls);
    var last := ls[|ls| - 1];
    MapAt(CityLine, rows, |rows| - 1);
    CityLineEnd(rows[|rows| - 1]);
    assert b[|b| - 2..] == b[|b| - |last|..][|last| - 2..];
  }

  lemma CityLineEnd(r: Row)
    ensures var l := CityLine(r); |l| >= 2 && l[|l| - 2..] == " }"
  {
  }

  // ---------------------------------------------------------------------
  // No slash in the text
  // ---------------------------------------------------------------------

  /** No label holds a '/'. */
  lemma LabelTextWithoutSlash(l: Label)
    ensures '/' !in LabelText(l)
  {
    match l
    case Neige(a, _) => TenthsTextWithout(a, '/');
    case Regel(t) => TenthsTextWithout(t, '/');
    case GelSevere(t) => TenthsTextWithout(t, '/');
    case Gel(t) => TenthsTextWithout(t, '/');
    case _ => FixedLabelWithoutSlash(l);
  }

  /** The labels without a number are fixed texts. */
  lemma FixedLabelWithoutSlash(l: Label)
    requires !l.Neige? && !l.Regel? && !l.GelSevere? && !l.Gel?
    ensures '/' !in LabelText(l)
  {
  }

  /** No '/' in a stored figure. */
  lemma NumTextWithoutSlash(n: Num)
    ensures '/' !in NumText(n)
  {
    TenthsTextWithout(NumValue(n), '/');
  }

  /** A city's line holds a '/' only if its key does: figures, tiers and labels never do. */
  lemma CityLineWithoutSlash(r: Row)
    requires '/' !in r.city
    ensures '/' !in CityLine(r)
  {
    FiguresWithoutSlash(r.entry);
    RiskWithoutSlash(r.entry);
  }

  lemma FiguresWithoutSlash(e: Entry)
    ensures '/' !in FiguresText(e)
  {
    TenthsTextWithout(e.high, '/');
    TenthsTextWithout(e.low, '/');
    NumTextWithoutSlash(e.precip);
    NumTextWithoutSlash(e.snow);
  }

  lemma RiskWithoutSlash(e: Entry)
    ensures '/' !in RiskText(e)
  {
    LabelTextWithoutSlash(e.riskLabel);
    assert '/' !in TierText(e.risk);
  }

  /** No '/' in a day's city block when no city key holds one. */
  lemma CityBlockWithoutSlash(rows: seq<Row>)
    requires forall m :: 0 <= m < |rows| ==> '/' !in rows[m].city
    ensures '/' !in CityBlock(rows)
  {
    var ls := CityLines(rows);
    forall m | 0 <= m < |rows| ensures '/' !in ls[m] {
      MapAt(CityLine, rows, m);
      CityLineWithoutSlash(rows[m]);
    }
    JoinWithout(",\n", ls, '/');
  }

  /** A character missing from the fixed lines, the day keys and the city blocks is missing from the layout. */
  lemma LayoutWithout(days: seq<string>, cities: seq<string>, c: char)
    requires |days| == |cities|
    requires c !in Header && c !in Footer && c !in DayClose && c !in DayOpenLead && c !in DayOpenTail
    requires forall k :: 0 <= k < |days| ==> c !in days[k] && c !in cities[k]
    ensures forall i :: 0 <= i < |Layout(days, cities)| ==> c !in Layout(days, cities)[i]
  {
    LayoutShape(days, cities);
    var ls := Layout(days, cities);
    forall i | 0 <= i < |ls| ensures c !in ls[i] {
      if 0 < i < 3 * |days| + 1 {
        var k := (i - 1) / 3;
        assert i == 3 * k + 1 || i == 3 * k + 2 || i == 3 * k + 3;
      }
    }
  }

  /** No '/' in the object literal when no day key and no city key holds one. */
  lemma JsWithoutSlash(table: map<string, seq<Row>>, days: seq<string>)
    requires forall k :: 0 <= k < |days| ==> days[k] in table
    requires forall k :: 0 <= k < |days| ==> '/' !in days[k]
    requires forall k, m :: 0 <= k < |days| && 0 <= m < |table[days[k]]| ==> '/' !in table[days[k]][m].city
    ensures '/' !in Join("\n", JsLines(table, days))
  {
    var rs := DayTables(table, days);
    var blocks := Map(CityBlock, rs);
    forall k | 0 <= k < |days| ensures '/' !in blocks[k] {
      MapAt(CityBlock, rs, k);
      CityBlockWithoutSlash(table[days[k]]);
    }
    LayoutWithout(days, blocks, '/');
    JoinWithout("\n", JsLines(table, days), '/');
  }

}
