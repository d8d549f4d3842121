# Weather updater for the France trip map, modelled in Dafny

The updater fetches an eight-day forecast for ten cities, adds a road-risk
verdict to each city and day, and writes the result into a web page as a
JavaScript object literal between two marker comments. It also rewrites the
page's "Données météo mises à jour" note with the time of the run.

This project models that pipeline and proves properties of the model:

- `Risk` is the risk classifier, `calculate_risk`. It is a first-match chain of
  rules from high, low, snowfall and precipitation to a tier (safe, caution or
  danger) and a French label. The label embeds the snowfall or the low as
  Python prints a float.
- `Table` is `build_weather_data`. It creates an empty map per day key. It then
  goes city by city through the day loop and stores one entry per readable
  day. It stops that city at the first day it cannot read: a missing
  temperature, or a series that is too short. A failed fetch skips the city.
  The forecast itself is an input, one `Forecast` per city.
  - `BuildWeatherData` and `AddCity` are the loops.
  - `ExpectedTable` is the specification they are proved against.
- `Serialise` is `format_weather_js`: the header line, then three lines per day
  key (the opening line, the city lines joined with ",\n", and the closing
  line), then the footer. Everything is joined with "\n".
  - `FormatWeatherJs` and `FormatCities` are the loops.
  - `JsLines` is their specification.
- `Publish` covers three things:
  - The two regular-expression substitutions of `update_html`, modelled by
    `Subst`. This is the leftmost, non-overlapping, lazy replacement of a
    `start(.*?)end` pattern over plain text.
  - The gate in `main`.
  - The method `Run`, which combines the steps. `RunOutcome` is its
    specification.

Numbers are whole numbers of tenths, because the caller rounds to one decimal
before classifying. A stored precipitation or snowfall figure is either
Python's integer 0 (`Zero`, printed "0") or a float (`Tenths`, printed "x.y").
The code tests the raw value before it rounds it, so the forecast keeps that
raw value (`Raw`): missing, zero, or a non-zero value with its rounding. A
non-zero value that rounds to nothing, such as 0.03, is stored as the float
0.0 and prints "0.0".
A day's map is a list of rows in insertion order, which is the order that
`dict.items()` yields.

The marker substitution uses DOTALL and can span lines. The timestamp pattern
has no DOTALL, so a match never crosses a line break, and `Stamp` applies the
substitution line by line.

Three behaviours of the code are worth stating on their own:

- The labels are French, and their numbers print as Python floats, e.g.
  "NEIGE 6.0cm!".
- A page without the markers is still written, with only the timestamp
  rewritten. The run still reports success.
  `Publish.MissingMarkersStillWritten` states this.
- When the run writes the page, a city whose fetch failed keeps no entries on
  it, although a comment in the code says its existing data is kept. The error
  path skips the city, and the splice then replaces the whole block between
  the markers, old entries included. When the gate fails, the page is not
  rewritten at all. `Table.FailedCityAbsent` and `Publish.SpliceKeepsOutside` state
  the two halves.

## Model

| member | source | states |
|---|---|---|
| Risk.TierOf | scripts/update_weather.py:68-101 | defines the tier each `return` pairs with its label; Risk.Classify states that every verdict keeps that pairing |
| Risk.Classify | scripts/update_weather.py:57-101 | the tier returned is always the tier that belongs to the returned label |
| Risk.ClassifyIffRegion | scripts/update_weather.py:57-101 | the chain returns result `a` exactly when the input lies in `a`'s region; each region is written without reference to rule order |
| Risk.SafeExactly | scripts/update_weather.py:67-71 | the verdict is safe if and only if the low is above 2 °C and there is no snow |
| Risk.SafeLabel | scripts/update_weather.py:68-71 | a safe day is "Parfait" when the high is above 8 °C, and "Pas de gel" otherwise |
| Risk.LightFrost | scripts/update_weather.py:73-75 | no snow and a low in (-1, 2] gives caution "Gel léger", whatever the high and the rain |
| Risk.SnowIsDanger | scripts/update_weather.py:77-83 | any snowfall gives danger with a NEIGE label carrying the amount; the "!" appears exactly above 5 cm |
| Risk.SnowBang | scripts/update_weather.py:78-83 | the printed snow label ends in "!" if and only if snowfall exceeds 5 cm |
| Risk.SnowMiddleRulesSameText | scripts/update_weather.py:80-83 | the "> 2 cm" rule and the "> 0 cm" rule print the same text form, "NEIGE {snow}cm" |
| Risk.RefreezeFirst | scripts/update_weather.py:85-87 | a high above 8 °C over a low below -2 °C, with no snow, is REGEL with the low, even with rain |
| Risk.RainOnFrost | scripts/update_weather.py:89-93 | rain with no snow, no refreeze and a low at or below -1 °C gives VERGLAS below -3 °C, and "Pluie + gel" otherwise |
| Risk.FrostLadder | scripts/update_weather.py:95-101 | with no snow, rain or refreeze: below -4 °C is severe frost, -4 to -1 is frost, exactly -1 is Prudence |
| Risk.PrudenceOnlyAtMinusOne | scripts/update_weather.py:95-101 | for non-negative snow, the catch-all Prudence is reached if and only if there is no snow, the low is exactly -1 °C and there is no rain |
| Risk.TierText | scripts/update_weather.py:68-101 | defines the tier names "safe", "caution" and "danger"; Risk.Classify ties each tier to its label |
| Risk.LabelText | scripts/update_weather.py:68-101 | defines the ten label texts, with the snowfall or the low printed as a float; Risk.LabelTextInjective and Risk.LeadingKindOfText state what the texts keep apart |
| Risk.TenthsTextShape | scripts/update_weather.py:79-99 | a printed number has at least three characters, starts with a sign or a digit and ends with a digit |
| Risk.LeadingKindOfText | scripts/update_weather.py:68-101 | the first characters of a label's text determine which of the ten labels it is |
| Risk.LabelTextInjective | scripts/update_weather.py:68-101 | distinct labels, including their embedded numbers, print as distinct texts |
| Text.IndexOf | scripts/update_weather.py:174-187 | the search result is an occurrence with none before it; none at all when it returns None |
| Text.IndexOfIsFirst | scripts/update_weather.py:174-187 | an occurrence with none before it is the one the search finds |
| Text.IndexOfPrefixStable | scripts/update_weather.py:174-187 | the first occurrence does not depend on text after it |
| Text.Join | scripts/update_weather.py:161-165 | defines `sep.join(parts)`; Text.JoinSplit and Text.SplitJoin state that Text.Split undoes it |
| Text.JoinStartsWithFirst | scripts/update_weather.py:165 | a join starts with its first part |
| Text.JoinEndsWithLast | scripts/update_weather.py:161-165 | a join ends with its last part |
| Text.JoinWithout | scripts/update_weather.py:161-165 | a character in neither the separator nor any part is absent from the join |
| Text.Split | scripts/update_weather.py:183-187 | splitting on a character gives at least one piece, and no piece contains that character |
| Text.JoinSplit | scripts/update_weather.py:183-187 | joining the pieces of a split on the same character gives the text back |
| Text.SplitJoin | scripts/update_weather.py:183-187 | splitting a join of a non-empty list of pieces that lack the character gives the pieces back |
| Text.SplitWithout | scripts/update_weather.py:183-187 | a text without the character splits into itself alone |
| Text.SplitAfterPiece | scripts/update_weather.py:183-187 | for an x that does not contain the character, splitting "x, then the character, then y" gives x followed by the split of y |
| Text.SplitPieceOccurs | scripts/update_weather.py:183-187 | a pattern found in one line of a text is found in the text |
| Text.NatText | scripts/update_weather.py:155-157 | the decimal text of a number is non-empty and made of digits |
| Text.ParseNatText | scripts/update_weather.py:155-157 | reading back the decimal text of a number gives the number |
| Text.TenthsText | scripts/update_weather.py:155-156 | defines the float text of a tenths value; Text.TenthsTextRoundTrip states that it reads back as the value |
| Text.TenthsTextRoundTrip | scripts/update_weather.py:155-157 | reading back the float text of a tenths value gives the value |
| Text.TenthsTextInjective | scripts/update_weather.py:155-157 | distinct figures print as distinct texts |
| Text.TenthsTextWithout | scripts/update_weather.py:155-157 | a printed number holds only a sign, digits and a point |
| Table.ConfigKeysDistinct | scripts/update_weather.py:16-35 | the day keys are pairwise distinct, and so are the city keys |
| Table.Keys | scripts/update_weather.py:127 | a day map's key list lists each row's city, in row order |
| Table.Lookup | scripts/update_weather.py:127 | a lookup misses exactly when the key is not among the map's keys |
| Table.Put | scripts/update_weather.py:127 | a dict assignment keeps the key list when the key is present, and appends the key when it is new |
| Table.PutLookup | scripts/update_weather.py:127 | after a dict assignment the key maps to the new entry, and every other key keeps its value |
| Table.PutNewKeyAppends | scripts/update_weather.py:127 | assigning a new key appends the pair at the end, as in insertion order |
| Table.DayReadable | scripts/update_weather.py:120-123 | defines when day i can be read: both temperatures present and all four series long enough |
| Table.Stored | scripts/update_weather.py:122-123 | a precipitation or snowfall value is stored as the integer 0 exactly when the raw value is missing or zero; its numeric value is the raw value's rounding, and 0 when it is missing |
| Table.EntryAt | scripts/update_weather.py:120-134 | the entry stored for a readable day carries the classifier's verdict on its own figures |
| Table.FalsyStoredAsZero | scripts/update_weather.py:120-123 | a stored entry has the forecast's high and low; its precipitation and snow are 0 exactly when the raw value is missing or zero, and otherwise the raw value's rounding, even when that is 0.0 |
| Table.DayRows | scripts/update_weather.py:111-139 | defines a day's rows: one per contributing city, in city order; Table.LookupCity and Table.DayRowsKeys state what they hold |
| Table.ExpectedTable | scripts/update_weather.py:104-141 | defines the expected table, each day key mapped to its rows; Table.BuildWeatherData is proved against it |
| Table.Contributes | scripts/update_weather.py:113-139 | defines when a city is stored for day i: its fetch succeeded and days 0 to i were all readable; Table.LookupCity, Table.FailureKeepsEarlierDays and Table.AllReadableContributes state its consequences |
| Table.ContributesEarlier | scripts/update_weather.py:117-139 | a city stored for day i is stored for every earlier day |
| Table.AllReadableContributes | scripts/update_weather.py:117-139 | a city whose days 0 to k are all readable is stored for day k |
| Table.ExpectedTableAt | scripts/update_weather.py:106-141 | each day key maps to its day's rows |
| Table.ExpectedTableKeys | scripts/update_weather.py:106-109 | the table's keys are exactly the day keys, since every day map is created up front |
| Table.DayRowsKeys | scripts/update_weather.py:111-139 | a day map holds only processed cities |
| Table.DayRowsNonEmpty | scripts/update_weather.py:111-139 | a day map is non-empty if and only if some city is stored for that day |
| Table.LookupCity | scripts/update_weather.py:111-139 | city j's entry on day i is present exactly when city j is stored for day i, and it is that day's entry |
| Table.LookupAppend | scripts/update_weather.py:127 | a lookup in two concatenated maps takes the first map's entry when the key is there |
| Table.RowsConsistent | scripts/update_weather.py:125-134 | every stored risk is the classifier's verdict on the stored figures |
| Table.FailedCityAbsent | scripts/update_weather.py:113-139 | a city whose fetch fails has no entry on any day |
| Table.FailureKeepsEarlierDays | scripts/update_weather.py:117-139 | a city whose first unreadable day is i keeps its entries for the earlier days and has none from day i on |
| Table.OtherCitiesUnaffected | scripts/update_weather.py:111-139 | changing one city's forecast changes no other city's entries |
| Table.DayRowsStep | scripts/update_weather.py:111-134 | processing one more city appends that city's entry, if any, to each day |
| Table.StoreDay | scripts/update_weather.py:127 | storing a contributing day of city j turns the map before it into the map after it |
| Table.StoreStep | scripts/update_weather.py:117-134 | one pass of the day loop keeps its invariant |
| Table.SkipRest | scripts/update_weather.py:136-139 | leaving a city's day loop early leaves the remaining days exactly as the specification says |
| Table.AddCity | scripts/update_weather.py:117-139 | one city's day loop turns the table for the first j cities into the table for the first j + 1 |
| Table.IsExpectedTable | scripts/update_weather.py:104-141 | a table with the day keys and every day's rows is the expected table |
| Table.BuildWeatherData | scripts/update_weather.py:104-141 | the built table is the expected table: every day key, each with the rows of the cities stored for that day, in city order |
| Serialise.StoredText | scripts/update_weather.py:122-123 | a stored figure prints as "0" exactly when the raw value was missing or zero; otherwise its text reads back as the rounding, and a non-zero value that rounds to 0 prints "0.0" |
| Serialise.NumText | scripts/update_weather.py:155-156 | defines a figure's text: "0" for the integer 0 and the float text otherwise; Serialise.StoredText states what it shows of the raw value |
| Serialise.DayOpen | scripts/update_weather.py:149 | defines a day's opening line; Serialise.DayLines places it first among the day's three entries |
| Serialise.CityLine | scripts/update_weather.py:153-158 | defines a city line; Serialise.CityLineEnd and Serialise.CityLineWithoutSlash state its shape |
| Serialise.FiguresText | scripts/update_weather.py:155-156 | defines the four figures of a city line; Serialise.FiguresWithoutSlash states what it excludes |
| Serialise.RiskText | scripts/update_weather.py:157 | defines the quoted tier and label of a city line; Serialise.RiskWithoutSlash states what it excludes |
| Serialise.CityBlock | scripts/update_weather.py:161 | defines a day's city lines joined with ",\n"; Serialise.FormatCities computes it and Serialise.NoTrailingComma states how it ends |
| Serialise.JsLines | scripts/update_weather.py:146-165 | defines the line list of the object literal; Serialise.DayLines and Serialise.LayoutShape state its layout |
| Serialise.BodySnoc | scripts/update_weather.py:148-162 | one more day appends its opening line, its cities and its closing line |
| Serialise.BodyShape | scripts/update_weather.py:148-162 | day k's three lines are at positions 3k to 3k + 2 |
| Serialise.LayoutShape | scripts/update_weather.py:146-164 | the header comes first and the footer last; between them come the opening line, the city block and the closing line of each day, in day-key order |
| Serialise.FormatWeatherJs | scripts/update_weather.py:144-165 | the text is the layout of the table's days, joined with "\n" |
| Serialise.FormatCities | scripts/update_weather.py:151-161 | the day's city text is the city lines joined with ",\n" |
| Serialise.LinesStep | scripts/update_weather.py:148-162 | one pass of the day loop keeps the lines equal to the layout of the days so far |
| Serialise.DayLines | scripts/update_weather.py:146-164 | the line list has 3n + 2 entries; day k's entries are its key line, its city block and its closing line |
| Serialise.JsTextBounds | scripts/update_weather.py:146-165 | the text starts with the header line and ends with the footer line |
| Serialise.NoTrailingComma | scripts/update_weather.py:157-161 | a non-empty city block ends with " }": there is no comma after the last city |
| Serialise.CityLineEnd | scripts/update_weather.py:153-158 | every city line ends with " }" |
| Serialise.LabelTextWithoutSlash | scripts/update_weather.py:68-101 | no label text contains '/' |
| Serialise.CityLineWithoutSlash | scripts/update_weather.py:153-158 | a city line contains '/' only if its city key does |
| Serialise.LayoutWithout | scripts/update_weather.py:146-164 | a character absent from the fixed lines, the day keys and the city blocks is absent from every line |
| Serialise.JsWithoutSlash | scripts/update_weather.py:144-165 | the object literal contains no '/' when no day key and no city key does |
| Publish.Subst | scripts/update_weather.py:179-187 | defines the leftmost, non-overlapping, lazy substitution; Publish.SubstPair, Publish.SubstNoPair and Publish.SubstIdempotent state its behaviour |
| Publish.SpliceWeather | scripts/update_weather.py:174-179 | defines the marker splice; Publish.SpliceKeepsOutside and Publish.SpliceIdempotent state its effect |
| Publish.StampLine | scripts/update_weather.py:181-187 | defines the timestamp substitution on one line; Publish.StampLineKeepsOutside states its effect |
| Publish.Stamp | scripts/update_weather.py:181-187 | defines the timestamp substitution of the page, line by line; Publish.StampKeepsLines and Publish.StampIdempotent state its effect |
| Publish.UpdateHtml | scripts/update_weather.py:174-187 | defines the new page: the splice, then the stamp; Publish.MissingMarkersStillWritten states the case without markers |
| Publish.Publishable | scripts/update_weather.py:202 | defines the gate; Publish.GateIff states when the built table passes it |
| Publish.RunOutcome | scripts/update_weather.py:195-207 | defines the outcome of a run; Publish.Run is proved against it and Publish.ExitIffEmptyDay states when it fails |
| Publish.SubstNoPair | scripts/update_weather.py:179 | a text with no start followed later by an end is left unchanged |
| Publish.SubstNoOpen | scripts/update_weather.py:179 | a text without a start is left unchanged |
| Publish.SubstNoClose | scripts/update_weather.py:179 | a text with no end after its first start is left unchanged |
| Publish.PairFromMatch | scripts/update_weather.py:179 | a first start followed by a first end forms a pair |
| Publish.SubstPair | scripts/update_weather.py:174-179 | the first start and the first end after it become the replacement, and the search continues after the end |
| Publish.SubstSinglePair | scripts/update_weather.py:174-179 | with a single pair, only the pair is replaced; the text before and after it is kept |
| Publish.SubstUnfold | scripts/update_weather.py:174-179 | one replacement step, at the first start and the first end after it |
| Publish.SubstIdempotent | scripts/update_weather.py:174-187 | when the replacement is start + middle + end and its only end is its last one, a second substitution changes nothing |
| Publish.SubstWithout | scripts/update_weather.py:179-187 | substitution adds no character that is absent from both the text and the replacement |
| Publish.DataBlock | scripts/update_weather.py:177 | defines the replacement text: start marker, object literal, line break and eight spaces, end marker; Publish.EndMarkerFirstAtEnd states that its end marker is its first one |
| Publish.SpliceKeepsOutside | scripts/update_weather.py:174-179 | for a page with one marker pair, the markers and everything before the start marker and after the end marker are kept; the old block becomes js + "\n        " |
| Publish.SpliceWithoutMarkers | scripts/update_weather.py:174-179 | a page without a start-marker/end-marker pair is left unchanged |
| Publish.EndMarkerFirstAtEnd | scripts/update_weather.py:177 | if the object literal has no end marker, the replacement's end marker is its first one |
| Publish.SpliceIdempotent | scripts/update_weather.py:174-179 | splicing the same object literal twice gives the page from splicing it once |
| Publish.RunJsWithoutEndMarker | scripts/update_weather.py:144-177 | the object literal a run writes never contains the end marker |
| Publish.RunSpliceIdempotent | scripts/update_weather.py:174-179 | splicing a run's own object literal twice gives the same page as splicing it once, whatever the page |
| Publish.ConfigKeysWithoutSlash | scripts/update_weather.py:16-35 | no day key or city key contains '/' |
| Publish.SlashFreeWithoutEndMarker | scripts/update_weather.py:174 | a text without '/' does not contain the end marker |
| Publish.StampText | scripts/update_weather.py:185 | defines the note's new text, the label, ": ", the timestamp, a space and a bar; Publish.StampLineKeepsOutside states where it goes |
| Publish.StampLines | scripts/update_weather.py:183-187 | the stamped list has one entry per line, and entry k is line k stamped on its own |
| Publish.StampLinesWithout | scripts/update_weather.py:183-187 | for lines and a timestamp without line breaks, no stamped line holds a line break |
| Publish.StampLineIdempotent | scripts/update_weather.py:183-187 | for a timestamp without a bar, stamping a line twice with the same timestamp equals stamping it once |
| Publish.StampLinesIdempotent | scripts/update_weather.py:183-187 | for a timestamp without a bar, stamping a list of lines twice equals stamping it once |
| Publish.StampKeepsLines | scripts/update_weather.py:183-187 | for a timestamp without a line break, the stamped page has the same lines as the page, each one stamped |
| Publish.StampIdempotent | scripts/update_weather.py:181-187 | for a timestamp without a bar or a line break, stamping the page twice with the same timestamp equals stamping it once |
| Publish.StampLinesUnchanged | scripts/update_weather.py:183-187 | lines without the label are left unchanged |
| Publish.StampWithoutLabel | scripts/update_weather.py:183-187 | a page without the label is left unchanged |
| Publish.StampLineKeepsOutside | scripts/update_weather.py:183-187 | within a line with one note, only the label up to the first bar after it is rewritten, to the label, ": ", the timestamp and a closing bar |
| Publish.GateIff | scripts/update_weather.py:202 | the built table passes the gate if and only if there is a day key and every day has a stored city |
| Publish.RunJs | scripts/update_weather.py:176 | defines the object literal a run writes, the text of the expected table; Publish.RunJsWithoutEndMarker states that it never holds the end marker |
| Publish.Run | scripts/update_weather.py:195-207 | the run's outcome is the specified one: the updated page when the gate passes, and exit status 1 otherwise |
| Publish.ExitIffEmptyDay | scripts/update_weather.py:202-207 | the run fails if and only if some day has no city that can be stored |
| Publish.AllFailedExits | scripts/update_weather.py:202-207 | when every fetch fails, the run exits with failure |
| Publish.CompleteCityPublishes | scripts/update_weather.py:202-204 | one city readable on all eight days is enough to publish |
| Publish.MissingMarkersStillWritten | scripts/update_weather.py:174-204 | when every day has a city, a page without the markers is written with only its timestamp note changed, and the run succeeds |

## Left out

- The HTTP request to the forecast service is an input. Each city's forecast is either `FetchFailed`, or the four daily series: the temperatures as optional values already in tenths, the precipitation and snowfall as `Raw` values. This covers network errors, HTTP status errors and a missing "daily" object, which all make the code skip the city. The coordinates and request parameters are therefore not modelled.
- Reading and writing index.html are not modelled: the page is a string input and the new page is the result. The progress messages that the code prints are also not modelled.
- The clock is not modelled: the timestamp is a parameter.
  - Publish.StampIdempotent requires that the timestamp holds no '|' and no line break. The code's "%Y-%m-%d %H:%M UTC" format meets this.
- Floating point is not modelled.
  - The forecast values are taken as already rounded to one decimal, as whole numbers of tenths. `round` itself is not modelled. For precipitation and snowfall, `Raw` also keeps whether the value before rounding was missing, zero or non-zero.
  - The float text is "sign, integer part, point, one digit". This matches Python's repr for such values, for magnitudes below 2^48 (about 2.8·10^14). From 2^49 on, two tenths values can round to the same double and print alike.
  - A negative zero prints as "0.0", where Python prints "-0.0". This includes a raw precipitation or snowfall value in (-0.05, 0), which the code stores as -0.0.
  - A JSON value received as an integer (e.g. 5 rather than 5.0) is treated like a float, so it prints "5.0" where Python would print "5".
- In both substitutions, the replacement text is taken literally, without processing backslash escapes or group references.
  - The object literal can contain a backslash only through a day key, a city key or a label, and none of the configured keys or labels has one.
- Publish.SpliceIdempotent requires that the spliced text holds no end marker. For the text a run actually writes, this is proved as Publish.RunJsWithoutEndMarker.
- A second full run on its own output (Publish.UpdateHtml applied twice) is not proved to give the same page. The splice (Publish.RunSpliceIdempotent) and the stamp (Publish.StampIdempotent) are each proved idempotent on their own.
- Risk.PrudenceOnlyAtMinusOne: stated for non-negative snowfall only. This is the only snowfall the forecast service reports; for negative inputs the other lemmas and Risk.ClassifyIffRegion describe the chain.
