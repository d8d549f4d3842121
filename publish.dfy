// Publishing the table into the page (update_html and the gate in main):
// the block between the two data markers is replaced by the new object
// literal, the "last updated" note gets the run's timestamp, and the page
// is written only when every day has at least one city.

module Publish {
  import opened Wrappers
  import opened Text
  import opened Table
  import opened Serialise

  // ---------------------------------------------------------------------
  // re.sub with a pattern `open(.*?)close`
  // ---------------------------------------------------------------------

  /**
   * `re.sub(open + "(.*?)" + close, rep, h)` where `open` and `close` are
   * plain text and `.` may match any character: from the left, each
   * `open` up to the nearest `close` after it becomes `rep`, and the
   * search goes on after that `close`. An `open` with no `close` after it
   * ends the matching.
   */
  function Subst(h: string, open: string, close: string, rep: string): string
    requires |open| > 0
    decreases |h|
  {
    match IndexOf(h, open)
    case None => h
    case Some(p) =>
      var rest := h[p + |open|..];
      match IndexOf(rest, close)
      case None => h
      case Some(q) => h[..p] + rep + Subst(rest[q + |close|..], open, close, rep)
  }

  /** Somewhere in `h` an `open` is followed, later, by a `close`. */
  ghost predicate HasPair(h: string, open: string, close: string) {
    exists p: nat, q: nat :: p + |open| <= q && OccursAt(h, open, p) && OccursAt(h, close, q)
  }

  /** Without an `open` … `close` pair there is nothing to replace. */
  lemma SubstNoPair(h: string, open: string, close: string, rep: string)
    requires |open| > 0
    ensures !HasPair(h, open, close) ==> Subst(h, open, close, rep) == h
  {
    var i := IndexOf(h, open);
    if i.None? {
      SubstNoOpen(h, open, close, rep);
    } else {
      var j := IndexOf(h[i.value + |open|..], close);
      if j.None? {
        SubstNoClose(h, open, close, rep, i.value);
      } else {
        PairFromMatch(h, open, close, i.value, j.value);
      }
    }
  }

  /** Without an `open` the text is kept. */
  lemma SubstNoOpen(h: string, open: string, close: string, rep: string)
    requires |open| > 0 && IndexOf(h, open) == None
    ensures Subst(h, open, close, rep) == h
  {
  }

  /** Without a `close` after the first `open` the text is kept. */
  lemma SubstNoClose(h: string, open: string, close: string, rep: string, p: nat)
    requires |open| > 0 && IndexOf(h, open) == Some(p)
    requires IndexOf(h[p + |open|..], close) == None
    ensures Subst(h, open, close, rep) == h
  {
  }

  /** A first `open` and a first `close` after it form a pair. */
  lemma PairFromMatch(h: string, open: string, close: string, p: nat, q: nat)
    requires OccursAt(h, open, p) && p + |open| <= |h|
    requires OccursAt(h[p + |open|..], close, q)
    ensures HasPair(h, open, close)
  {
    var m := p + |open|;
    assert h[..m] + h[m..] == h;
    OccursAtShift(h[..m], h[m..], close, q);
    assert OccursAt(h, close, m + q);
  }

  /** Slicing a text made of three parts. */
  lemma Cut(a: string, b: string, c: string)
    ensures (a + b + c)[..|a|] == a
    ensures (a + b + c)[|a| + |b|..] == c
  {
  }

  /** A match found in `a`, and ending inside it, is the first match in `a + b`. */
  lemma PrefixFound(s: string, a: string, b: string, pat: string, k: nat)
    requires s == a + b
    requires IndexOf(a, pat) == Some(k) && k + |pat| <= |a|
    ensures IndexOf(s, pat) == Some(k)
  {
    assert s[..|a|] == a[..|a|];
    IndexOfPrefixStable(a, s, pat, |a|);
  }

  /**
   * When the first `open` comes right after `pre` and the first `close`
   * after it right after `mid`, that pair becomes `rep` and the
   * replacing goes on in `post`.
   */
  lemma SubstPair(pre: string, open: string, mid: string, close: string, post: string, rep: string)
    requires |open| > 0
    requires IndexOf(pre + open, open) == Some(|pre|)
    requires IndexOf(mid + close, close) == Some(|mid|)
    ensures Subst(pre + open + (mid + close + post), open, close, rep)
      == pre + rep + Subst(post, open, close, rep)
  {
    PrefixFound(pre + open + (mid + close + post), pre + open, mid + close + post, open, |pre|);
    PrefixFound(mid + close + post, mid + close, post, close, |mid|);
    Cut(pre, open, mid + close + post);
    Cut(mid, close, post);
  }

  /**
   * A text with one pair: the first `open` comes right after `pre`, the
   * first `close` after it ends `mid`, and `post` holds no further pair.
   * Only the pair is replaced; `pre` and `post` are kept as they are.
   */
  lemma SubstSinglePair(pre: string, open: string, mid: string, close: string, post: string, rep: string)
    requires |open| > 0
    requires IndexOf(pre + open, open) == Some(|pre|)
    requires IndexOf(mid + close, close) == Some(|mid|)
    requires !HasPair(post, open, close)
    ensures Subst(pre + open + (mid + close + post), open, close, rep) == pre + rep + post
  {
    SubstPair(pre, open, mid, close, post, rep);
    SubstNoPair(post, open, close, rep);
  }

  /** One step of the replacement, when `open` is first at `p` and `close` first at `q` after it. */
  lemma SubstUnfold(h: string, open: string, close: string, rep: string, p: nat, q: nat)
    requires |open| > 0 && IndexOf(h, open) == Some(p)
    requires IndexOf(h[p + |open|..], close) == Some(q)
    ensures Subst(h, open, close, rep) == h[..p] + rep + Subst(h[p + |open|..][q + |close|..], open, close, rep)
  {
    var rest := h[p + |open|..];
    Decompose(h, open, close, p, q);
    FirstMatchAtEnd(h, open, p);
    FirstMatchAtEnd(rest, close, q);
    SubstPair(h[..p], open, rest[..q], close, rest[q + |close|..], rep);
  }

  /** The text around the first `open` at `p` and the first `close` at `q` after it. */
  lemma Decompose(h: string, open: string, close: string, p: nat, q: nat)
    requires OccursAt(h, open, p) && OccursAt(h[p + |open|..], close, q)
    ensures h == h[..p] + open + (h[p + |open|..][..q] + close + h[p + |open|..][q + |close|..])
  {
    var rest := h[p + |open|..];
    assert rest == rest[..q] + close + rest[q + |close|..];
    assert h == h[..p] + open + rest;
  }

  /** The text before the first match, followed by the pattern, has its first match at the end. */
  lemma FirstMatchAtEnd(s: string, pat: string, k: nat)
    requires IndexOf(s, pat) == Some(k)
    ensures IndexOf(s[..k] + pat, pat) == Some(k)
  {
    assert s[..k + |pat|] == s[..k] + pat;
    IndexOfPrefixStable(s, s[..k] + pat, pat, k + |pat|);
  }

  lemma Regroup(a: string, b: string, c: string, d: string, e: string)
    ensures a + (b + c + d) + e == a + b + (c + d + e)
  {
  }

  /**
   * When the replacement is itself `open + mid + close` and its only
   * `close` is the last one, a second pass changes nothing.
   */
  lemma {:induction false} SubstIdempotent(h: string, open: string, mid: string, close: string, rep: string)
    requires |open| > 0 && rep == open + mid + close
    requires IndexOf(mid + close, close) == Some(|mid|)
    ensures Subst(Subst(h, open, close, rep), open, close, rep) == Subst(h, open, close, rep)
    decreases |h|
  {
    match IndexOf(h, open)
    case None =>
      SubstNoOpen(h, open, close, rep);
    case Some(p) =>
      var rest := h[p + |open|..];
      match IndexOf(rest, close)
      case None =>
        SubstNoClose(h, open, close, rep, p);
      case Some(q) =>
        var pre := h[..p];
        var tail := Subst(rest[q + |close|..], open, close, rep);
        SubstUnfold(h, open, close, rep, p, q);
        calc {
          Subst(pre + rep + tail, open, close, rep);
          == { Regroup(pre, open, mid, close, tail); }
          Subst(pre + open + (mid + close + tail), open, close, rep);
          == { FirstMatchAtEnd(h, open, p); SubstPair(pre, open, mid, close, tail, rep); }
          pre + rep + Subst(tail, open, close, rep);
          == { SubstIdempotent(rest[q + |close|..], open, mid, close, rep); }
          pre + rep + tail;
        }
  }

  /** Replacing never brings in a character that neither the text nor `rep` has. */
  lemma {:induction false} SubstWithout(h: string, open: string, close: string, rep: string, c: char)
    requires |open| > 0
    requires c !in h && c !in rep
    ensures c !in Subst(h, open, close, rep)
    decreases |h|
  {
    match IndexOf(h, open)
    case None =>
      SubstNoOpen(h, open, close, rep);
    case Some(p) =>
      var rest := h[p + |open|..];
      match IndexOf(rest, close)
      case None =>
        SubstNoClose(h, open, close, rep, p);
      case Some(q) =>
        var tail := rest[q + |close|..];
        SubstUnfold(h, open, close, rep, p, q);
        WithoutInSlices(h, c, p, p + |open|, q + |close|);
        SubstWithout(tail, open, close, rep, c);
  }

  lemma WithoutInSlices(h: string, c: char, p: nat, m: nat, n: nat)
    requires c !in h && p <= m <= |h| && n <= |h| - m
    ensures c !in h[..p] && c !in h[m..][n..]
  {
    assert h[m..][n..] == h[m + n..];
  }

  // ---------------------------------------------------------------------
  // The data block between the markers
  // ---------------------------------------------------------------------

  const StartMarker: string := "// WEATHER_DATA_START\n"
  const EndMarker: string := "// WEATHER_DATA_END"
  /** What the replacement puts between the object literal and the end marker. */
  const Indent: string := "\n        "

  /** The replacement text: both markers around the new object literal. */
  function DataBlock(js: string): string {
    StartMarker + js + Indent + EndMarker
  }

  /** The page with its marked block replaced by `js`. */
  function SpliceWeather(html: string, js: string): string {
    Subst(html, StartMarker, EndMarker, DataBlock(js))
  }

  /**
   * The markers are kept, and so is all the text before the start marker
   * and after the end marker; only the old block between them changes.
   */
  lemma SpliceKeepsOutside(pre: string, block: string, post: string, js: string)
    requires IndexOf(pre + StartMarker, StartMarker) == Some(|pre|)
    requires IndexOf(block + EndMarker, EndMarker) == Some(|block|)
    requires !HasPair(post, StartMarker, EndMarker)
    ensures SpliceWeather(pre + StartMarker + (block + EndMarker + post), js)
      == pre + StartMarker + js + Indent + EndMarker + post
  {
    SubstSinglePair(pre, StartMarker, block, EndMarker, post, DataBlock(js));
  }

  /** A page without a start … end pair is left as it is. */
  lemma SpliceWithoutMarkers(html: string, js: string)
    requires !HasPair(html, StartMarker, EndMarker)
    ensures SpliceWeather(html, js) == html
  {
    SubstNoPair(html, StartMarker, EndMarker, DataBlock(js));
  }

  /**
   * When the object literal holds no end marker, the end marker of the
   * replacement is the first one after the start marker: the padding
   * before it holds no '/', and the marker holds no line break.
   */
  lemma EndMarkerFirstAtEnd(js: string)
    requires IndexOf(js, EndMarker) == None
    ensures IndexOf(js + Indent + EndMarker, EndMarker) == Some(|js| + |Indent|)
  {
    var t := js + Indent + EndMarker;
    var e := |js| + |Indent|;
    forall j: nat | j < e
      ensures !OccursAt(t, EndMarker, j)
    {
      if j + |EndMarker| <= |js| {
        assert t[..|js|] == js;
        OccursAtPrefix(t, js, EndMarker, |js|, j);
      } else if j < |js| {
        assert t[|js|] == '\n';
        BreakBlocksEndMarker(t, j, |js|);
      } else {
        assert t[j] == Indent[j - |js|];
        assert t[j] != '/';
        SlashStartsEndMarker(t, j);
      }
    }
    assert t[e..e + |EndMarker|] == EndMarker;
    IndexOfIsFirst(t, EndMarker, e);
  }

  /** The end marker holds no line break, so no match spans one. */
  lemma BreakBlocksEndMarker(t: string, j: nat, n: nat)
    requires j <= n < j + |EndMarker| && n < |t| && t[n] == '\n'
    ensures !OccursAt(t, EndMarker, j)
  {
  }

  /** The end marker starts with '/'. */
  lemma SlashStartsEndMarker(t: string, j: nat)
    requires j < |t| && t[j] != '/'
    ensures !OccursAt(t, EndMarker, j)
  {
  }

  /** Splicing the same object literal twice gives the page of splicing it once. */
  lemma SpliceIdempotent(html: string, js: string)
    requires IndexOf(js, EndMarker) == None
    ensures SpliceWeather(SpliceWeather(html, js), js) == SpliceWeather(html, js)
  {
    EndMarkerFirstAtEnd(js);
    assert DataBlock(js) == StartMarker + (js + Indent) + EndMarker;
    assert (js + Indent) + EndMarker == js + Indent + EndMarker;
    SubstIdempotent(html, StartMarker, js + Indent, EndMarker, DataBlock(js));
  }

  // ---------------------------------------------------------------------
  // The timestamp note
  // ---------------------------------------------------------------------

  const StampLabel: string := "Données météo mises à jour"

  /** The note as rewritten: the label, the timestamp and the closing bar. */
  function StampText(ts: string): string {
    StampLabel + ": " + ts + " |"
  }

  /** One line of the page with its notes rewritten (the pattern has no DOTALL, so no match crosses a line). */
  function StampLine(line: string, ts: string): string {
    Subst(line, StampLabel, "|", StampText(ts))
  }

  /** Every line stamped on its own, in the same order. */
  function StampLines(lines: seq<string>, ts: string): (r: seq<string>)
    ensures |r| == |lines|
    ensures forall k :: 0 <= k < |lines| ==> r[k] == StampLine(lines[k], ts)
    decreases |lines|
  {
    if |lines| == 0 then [] else [StampLine(lines[0], ts)] + StampLines(lines[1..], ts)
  }

  /** The page with every "label … |" note rewritten to carry `ts`. */
  function Stamp(html: string, ts: string): string {
    Join("\n", StampLines(Split(html, '\n'), ts))
  }

  lemma {:induction false} StampLinesWithout(lines: seq<string>, ts: string)
    requires '\n' !in ts
    requires forall k :: 0 <= k < |lines| ==> '\n' !in lines[k]
    ensures forall k :: 0 <= k < |lines| ==> '\n' !in StampLines(lines, ts)[k]
    decreases |lines|
  {
    if |lines| > 0 {
      SubstWithout(lines[0], StampLabel, "|", StampText(ts), '\n');
      StampLinesWithout(lines[1..], ts);
      var r := StampLines(lines, ts);
      forall k | 0 < k < |lines|
        ensures '\n' !in r[k]
      {
        assert r[k] == StampLines(lines[1..], ts)[k - 1];
        assert lines[1..][k - 1] == lines[k];
      }
    }
  }

  lemma StampLineIdempotent(line: string, ts: string)
    requires '|' !in ts
    ensures StampLine(StampLine(line, ts), ts) == StampLine(line, ts)
  {
    var mid := ": " + ts + " ";
    FirstAtEnd(mid, '|');
    assert StampText(ts) == StampLabel + mid + "|";
    SubstIdempotent(line, StampLabel, mid, "|", StampText(ts));
  }

  lemma {:induction false} StampLinesIdempotent(lines: seq<string>, ts: string)
    requires '|' !in ts
    ensures StampLines(StampLines(lines, ts), ts) == StampLines(lines, ts)
    decreases |lines|
  {
    if |lines| > 0 {
      var r := StampLines(lines, ts);
      StampLineIdempotent(lines[0], ts);
      StampLinesIdempotent(lines[1..], ts);
      assert r[1..] == StampLines(lines[1..], ts);
    }
  }

  /** Stamping keeps the lines of the page: each line of the result is the same line of the page, stamped. */
  lemma StampKeepsLines(html: string, ts: string)
    requires '\n' !in ts
    ensures Split(Stamp(html, ts), '\n') == StampLines(Split(html, '\n'), ts)
  {
    var lines := Split(html, '\n');
    StampLinesWithout(lines, ts);
    SplitJoin(StampLines(lines, ts), '\n');
  }

  /** Stamping twice with the same timestamp gives the page of stamping once. */
  lemma StampIdempotent(html: string, ts: string)
    requires '|' !in ts && '\n' !in ts
    ensures Stamp(Stamp(html, ts), ts) == Stamp(html, ts)
  {
    var lines := Split(html, '\n');
    var stamped := StampLines(lines, ts);
    StampLinesWithout(lines, ts);
    SplitJoin(stamped, '\n');
    StampLinesIdempotent(lines, ts);
  }

  lemma {:induction false} StampLinesUnchanged(lines: seq<string>, ts: string)
    requires forall k :: 0 <= k < |lines| ==> IndexOf(lines[k], StampLabel) == None
    ensures StampLines(lines, ts) == lines
    decreases |lines|
  {
    if |lines| > 0 {
      StampLinesUnchanged(lines[1..], ts);
      assert [lines[0]] + lines[1..] == lines;
    }
  }

  /** A page without the label is left as it is. */
  lemma StampWithoutLabel(html: string, ts: string)
    requires IndexOf(html, StampLabel) == None
    ensures Stamp(html, ts) == html
  {
    var lines := Split(html, '\n');
    forall k | 0 <= k < |lines|
      ensures IndexOf(lines[k], StampLabel) == None
    {
      if IndexOf(lines[k], StampLabel).Some? {
        SplitPieceOccurs(html, '\n', k, StampLabel, IndexOf(lines[k], StampLabel).value);
        assert false;
      }
    }
    StampLinesUnchanged(lines, ts);
    JoinSplit(html, '\n');
  }

  /** Within a line, only the label up to the first bar after it is rewritten. */
  lemma StampLineKeepsOutside(pre: string, note: string, post: string, ts: string)
    requires IndexOf(pre + StampLabel, StampLabel) == Some(|pre|)
    requires '|' !in note
    requires !HasPair(post, StampLabel, "|")
    ensures StampLine(pre + StampLabel + (note + "|" + post), ts) == pre + StampText(ts) + post
  {
    FirstAtEnd(note, '|');
    SubstSinglePair(pre, StampLabel, note, "|", post, StampText(ts));
  }

  // ---------------------------------------------------------------------
  // The gate and the run
  // ---------------------------------------------------------------------

  /** The gate of main: the table is non-empty and every day key has at least one city. */
  predicate Publishable(table: map<string, seq<Row>>, days: seq<string>)
    requires forall k :: 0 <= k < |days| ==> days[k] in table
  {
    |table| > 0 && forall k :: 0 <= k < |days| ==> |table[days[k]]| > 0
  }

  /** Some city contributes to day `i`. */
  predicate SomeCityOn(forecasts: seq<Forecast>, i: nat) {
    exists j :: 0 <= j < |forecasts| && Contributes(forecasts[j], i)
  }

  /** The built table passes the gate exactly when there are days and every day has a contributing city. */
  lemma GateIff(days: seq<string>, cities: seq<string>, forecasts: seq<Forecast>)
    requires Distinct(days) && |cities| == |forecasts|
    ensures forall k :: 0 <= k < |days| ==> days[k] in ExpectedTable(days, cities, forecasts)
    ensures Publishable(ExpectedTable(days, cities, forecasts), days)
      <==> |days| > 0 && forall i :: 0 <= i < |days| ==> SomeCityOn(forecasts, i)
  {
    var table := ExpectedTable(days, cities, forecasts);
    ExpectedTableKeys(days, cities, forecasts);
    forall i | 0 <= i < |days|
      ensures |table[days[i]]| > 0 <==> SomeCityOn(forecasts, i)
    {
      ExpectedTableAt(days, cities, forecasts, i);
      DayRowsNonEmpty(cities, forecasts, i);
    }
    if |days| > 0 {
      assert days[0] in table;
    } else {
      assert table == map[];
    }
  }

  /** What a run ends with: the page it writes, or exit status 1. */
  datatype Outcome = Written(page: string) | ExitFailure

  /** update_html: the data block, then the timestamp note. */
  function UpdateHtml(html: string, js: string, ts: string): string {
    Stamp(SpliceWeather(html, js), ts)
  }

  /** The outcome of a run on page `html` with one forecast per city key and timestamp `ts`. */
  function RunOutcome(html: string, forecasts: seq<Forecast>, ts: string): Outcome
    requires |forecasts| == |CityKeys|
  {
    ConfigKeysDistinct();
    ExpectedTableKeys(DayKeys, CityKeys, forecasts);
    var table := ExpectedTable(DayKeys, CityKeys, forecasts);
    if Publishable(table, DayKeys) then Written(UpdateHtml(html, RunJs(forecasts), ts))
    else ExitFailure
  }

  /** The object literal of the table built from one forecast per city key. */
  function RunJs(forecasts: seq<Forecast>): string
    requires |forecasts| == |CityKeys|
  {
    ConfigKeysDistinct();
    ExpectedTableKeys(DayKeys, CityKeys, forecasts);
    Join("\n", JsLines(ExpectedTable(DayKeys, CityKeys, forecasts), DayKeys))
  }

  /** main: build the table, check it, and either update the page or fail. */
  method Run(html: string, forecasts: seq<Forecast>, ts: string) returns (out: Outcome)
    requires |forecasts| == |CityKeys|
    ensures out == RunOutcome(html, forecasts, ts)
  {
    ConfigKeysDistinct();
    var table := BuildWeatherData(DayKeys, CityKeys, forecasts);
    ExpectedTableKeys(DayKeys, CityKeys, forecasts);
    if Publishable(table, DayKeys) {
      var js := FormatWeatherJs(table, DayKeys);
      out := Written(UpdateHtml(html, js, ts));
    } else {
      out := ExitFailure;
    }
  }

  /** The run fails exactly when some day has no contributing city. */
  lemma ExitIffEmptyDay(html: string, forecasts: seq<Forecast>, ts: string)
    requires |forecasts| == |CityKeys|
    ensures RunOutcome(html, forecasts, ts) == ExitFailure
      <==> exists i :: 0 <= i < |DayKeys| && !SomeCityOn(forecasts, i)
  {
    ConfigKeysDistinct();
    GateIff(DayKeys, CityKeys, forecasts);
  }

  /** When every fetch fails, the run does not publish. */
  lemma AllFailedExits(html: string, forecasts: seq<Forecast>, ts: string)
    requires |forecasts| == |CityKeys|
    requires forall j :: 0 <= j < |forecasts| ==> forecasts[j] == FetchFailed
    ensures RunOutcome(html, forecasts, ts) == ExitFailure
  {
    assert forall j :: 0 <= j < |forecasts| ==> !DayReadable(forecasts[j], 0);
    assert !SomeCityOn(forecasts, 0);
    ExitIffEmptyDay(html, forecasts, ts);
  }

  /** One city readable on every day is enough to publish. */
  lemma CompleteCityPublishes(html: string, forecasts: seq<Forecast>, ts: string, j: nat)
    requires |forecasts| == |CityKeys|
    requires j < |forecasts| && Contributes(forecasts[j], |DayKeys| - 1)
    ensures RunOutcome(html, forecasts, ts).Written?
  {
    forall i | 0 <= i < |DayKeys|
      ensures SomeCityOn(forecasts, i)
    {
      ContributesEarlier(forecasts[j], |DayKeys| - 1, i);
      assert Contributes(forecasts[j], i);
    }
    ExitIffEmptyDay(html, forecasts, ts);
  }

  /**
   * A page without the markers is still written (with only its timestamp
   * note rewritten) and the run counts as a success.
   */
  lemma MissingMarkersStillWritten(html: string, forecasts: seq<Forecast>, ts: string)
    requires |forecasts| == |CityKeys|
    requires !HasPair(html, StartMarker, EndMarker)
    requires forall i :: 0 <= i < |DayKeys| ==> SomeCityOn(forecasts, i)
    ensures RunOutcome(html, forecasts, ts) == Written(Stamp(html, ts))
  {
    ConfigKeysDistinct();
    GateIff(DayKeys, CityKeys, forecasts);
    SpliceWithoutMarkers(html, RunJs(forecasts));
  }

  /** No key holds a '/', so the object literal a run writes holds no end marker. */
  lemma RunJsWithoutEndMarker(forecasts: seq<Forecast>)
    requires |forecasts| == |CityKeys|
    ensures IndexOf(RunJs(forecasts), EndMarker) == None
  {
    ConfigKeysDistinct();
    ExpectedTableKeys(DayKeys, CityKeys, forecasts);
    var table: map<string, seq<Row>> := ExpectedTable(DayKeys, CityKeys, forecasts);
    ConfigKeysWithoutSlash();
    forall k, m | 0 <= k < |DayKeys| && 0 <= m < |table[DayKeys[k]]|
      ensures '/' !in table[DayKeys[k]][m].city
    {
      ExpectedTableAt(DayKeys, CityKeys, forecasts, k);
      DayRowsKeys(CityKeys, forecasts, k);
      assert Keys(table[DayKeys[k]])[m] in CityKeys;
    }
    JsWithoutSlash(table, DayKeys);
    SlashFreeWithoutEndMarker(RunJs(forecasts));
  }

  /** No configured key holds a '/'. */
  lemma ConfigKeysWithoutSlash()
    ensures forall k :: 0 <= k < |DayKeys| ==> '/' !in DayKeys[k]
    ensures forall c :: c in CityKeys ==> '/' !in c
  {
  }

  /** The end marker starts with '/', so a text without '/' does not hold it. */
  lemma SlashFreeWithoutEndMarker(s: string)
    requires '/' !in s
    ensures IndexOf(s, EndMarker) == None
  {
    forall j: nat | j < |s|
      ensures !OccursAt(s, EndMarker, j)
    {
      SlashStartsEndMarker(s, j);
    }
  }

  /**
   * Splicing the object literal of a run twice gives the same page as
   * splicing it once, whatever the page: the literal never holds the end
   * marker, so the second splice finds each block as the first one left it.
   */
  lemma RunSpliceIdempotent(html: string, forecasts: seq<Forecast>)
    requires |forecasts| == |CityKeys|
    ensures SpliceWeather(SpliceWeather(html, RunJs(forecasts)), RunJs(forecasts)) == SpliceWeather(html, RunJs(forecasts))
  {
    RunJsWithoutEndMarker(forecasts);
    SpliceIdempotent(html, RunJs(forecasts));
  }
}
