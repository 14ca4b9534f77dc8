# Whale-sighting map transforms, modelled in Dafny

This project models the data transforms at the heart of the whale-sighting map script `app.py`. The script reads sighting records, links successive sightings of one chain with lines, fades markers by age, and writes hover text for every marker. The model covers four parts:

- **TextWrap** (`text_wrap.dfy`): `limitLineWidth`, which wraps hover text to a width by inserting the markup `<br>`. It breaks at the last space of the first `width` characters and drops that space. When there is no space there, it hard-breaks after exactly `width` characters. To state what the output's "display lines" are, the module also defines `SplitBr`, a left-to-right cut at every `<br>` (what `str.split("<br>")` does). The key fact `SplitBrAppend` holds for every string: `<br>` has no border, because `<` occurs only at its start.
- **Recency** (`recency.dfy`): `normalizeTimeDiff` takes the whole minutes between now and the sighting, floored before the absolute value is taken, and divides by 1440. `applyTransScale` is the four-step threshold chain onto the tiers 0.25, 0.50, 0.75 and 1.00. `Opacity` is the composition `applyTransScale(1 - normalizeTimeDiff(created))` that `createMap` uses.
- **Linking** (`linking.dfy`): the sighting record and the line loop of `createMap`. The loop adds one segment, from record `i` to record `i + 1`, for every adjacent pair with equal ids. `BuildSegments` is that loop, growing a sequence of segments. `LinkedPairs` is its specification: the linked indices in increasing order.
- **MapComposer** (`map_composer.dfy`): the `time_diff` column is computed by three in-place passes over an array (normalise, invert, quantise). It also holds the hover-text template and the assembled document: the fixed layout, the line traces, one marker per record, no legend.

Instants are whole seconds on one clock. The clock is read once per record inside `normalizeTimeDiff`, so the caller passes in one reading per record. A missing `id` cell is `None`. The cell `type` is taken to be a string, since it is passed to `limitLineWidth` without `str()`. The cells `no_sighted`, `comment` and the printed `created` are held as the text `str()` gives for them.

## Model

| member | source | states |
|---|---|---|
| TextWrap.LastSpace | app.py:53 | `rfind(' ')`: -1 exactly when there is no space; otherwise the index of a space with no space after it |
| TextWrap.Wrap | app.py:49-61 | the recursion ends for every width >= 1; a line no longer than width comes back unchanged; a longer line comes back strictly longer (at least one break was added) |
| TextWrap.WrapSoftBreak | app.py:53-56 | when k is the last space among the first width characters, the first line is `line[..k]`, the space is dropped, and the rest `line[k+1..]` is wrapped |
| TextWrap.WrapHardBreak | app.py:53-59 | when the first width characters hold no space, the first line is exactly those width characters and the rest `line[width..]` is wrapped |
| TextWrap.SplitBrJoin | app.py:140-149 | cutting any string at every `<br>` and joining the pieces with `<br>` again gives the string back |
| TextWrap.SplitBrPiecesFree | app.py:140-149 | no display line contains `<br>` |
| TextWrap.JoinBrSplit | app.py:140-149 | joining one or more lines that hold no `<br>` and cutting again gives the same lines |
| TextWrap.SplitBrShort | app.py:140-149 | no display line is longer than the string it was cut from |
| TextWrap.SplitJoinFits | app.py:140-149 | pieces of at most w characters, joined with `<br>` and cut again, give display lines of at most w characters, whatever the pieces hold |
| TextWrap.WrapLinesFit | app.py:52-61 | for width >= 1 and every input, `<br>` in it included, every display line of the output is at most width characters long |
| TextWrap.WrapRestores | app.py:52-61 | for an input without `<br>`: the output's display lines, rejoined with a single space at each soft break and nothing at each hard break, give back the input exactly; soft-break lines are shorter than width; hard-break lines are exactly width long and hold no space |
| TextWrap.WrapPieces | app.py:52-61 | for every input, `<br>` in it included: the output is pieces joined with `<br>`; rejoined with a space at each soft break and nothing at each hard break, the pieces give back the input; soft-break pieces are shorter than width, hard-break pieces are exactly width long with no space, and the last piece is at most width long |
| TextWrap.WrapCutsMarkup | app.py:52-61 | with width 3, `ab<br>cd` becomes `ab<` + `<br>` + `br>` + `<br>` + `cd`: markup already in the line is cut through |
| TextWrap.CutMarkupLines | app.py:52-61 | that output's display lines are `ab<`, `br>` and `cd` |
| Recency.MinutesApart | app.py:69-70 | `abs(seconds // 60)`: for a past sighting, its completed minutes; for a future one, every minute it has started (floor before abs) |
| Recency.NormalizeTimeDiff | app.py:65-77 | the result is never negative, and times 1440 it is the whole-minute difference |
| Recency.NormalizeDayBoundary | app.py:66-73 | the value is exactly 1.0 for an age of 86400 to 86459 seconds; above 1.0 from 86460 seconds on (so not bounded to [0,1]); 0.0 exactly in the first minute |
| Recency.ApplyTransScale | app.py:80-88 | the result is one of the four tiers: the first tier at or above the input, or 1.00 for inputs above 0.75 |
| Recency.TransScaleUnique | app.py:80-88 | the contract of ApplyTransScale pins its result down: any tier meeting it is the result |
| Recency.TransScaleMonotone | app.py:80-88 | a larger input never gets a lower tier |
| Recency.TransScaleBoundaries | app.py:81-88 | 0.25, 0.50 and 0.75 map to themselves; everything at or below 0.25 (negatives too) maps to 0.25; everything above 0.75 (values above 1 too) maps to 1.00 |
| Recency.Opacity | app.py:134-136 | a marker's opacity is always one of the four tiers |
| Recency.OpacityByAge | app.py:134-136 | opacity 1.00 below 360 minutes of age, 0.75 up to 720, 0.50 up to 1080, and 0.25 from 1080 minutes on, however old the sighting is |
| Linking.LinkedBelow | app.py:115-121 | the indices it lists are below n, link equal ids at i and i + 1, and strictly increase |
| Linking.LinkedPairs | app.py:115-121 | only linked indices are listed, in strictly increasing order, so at most one per adjacent pair of records |
| Linking.LinkedBelowComplete | app.py:115-121 | no linked index below n is left out |
| Linking.LinkedPairsExact | app.py:115-121 | i is listed exactly when records i and i + 1 have equal ids, each index once and in increasing order |
| Linking.NoLinksForShortInput | app.py:115 | zero or one record give no segment |
| Linking.BuildSegments | app.py:115-129 | the loop adds one segment per linked index, in order, from record i to record i + 1 |
| Linking.MissingIdNeverLinks | app.py:121 | a record with a missing id is joined to neither neighbour, not even to one whose id is also missing (`NaN == NaN` is false) |
| Linking.OneLinkExample | app.py:115-129 | ids "1", "1", "2", "1" give exactly one segment, between the first two records |
| MapComposer.ComputeOpacities | app.py:133-136 | three in-place passes leave each record's opacity, at that record's own clock reading, in record order, in a fresh array of one entry per record |
| MapComposer.ClockReadingSplitsTier | app.py:65-73 | one sighting aged against two readings one second apart gets tiers 1.00 and 0.75, so the per-record clock read matters |
| MapComposer.HoverText | app.py:140-149 | a record's hover text opens with its wrapped `type` and a `<br>`, and closes with two `<br>` and the attribution |
| MapComposer.HoverBoxLines | app.py:140-149 | for any four field texts, the template's display lines are those of each field in turn, with an empty line before the comment and another before the attribution |
| MapComposer.HoverTextLines | app.py:140-149 | a record's hover text reads, line by line: the wrapped `type`, the wrapped `Count: ` + count, the wrapped `Created: ` + time, an empty line, the wrapped `Comments: ` + comment, an empty line, `Data aggregated by Acartia` |
| MapComposer.HoverLinesFit | app.py:140-149 | for every record, whatever its fields hold, no display line of its hover text is longer than 50 |
| MapComposer.ComposeMap | app.py:91-178 | the document has the fixed layout and no legend; its lines are one segment per linked index, in order; it has one marker per record, in order, at the record's position, with the record's opacity at its own clock reading and its hover text |
| MapComposer.ThreeSightingExample | app.py:115-136 | ids A, A, B seen 2, 30 and 2000 minutes ago give one line and opacities 1.00, 1.00 and 0.25 |

Facts about the code that the model makes explicit:

- A sighting more than a day old gets tier 0.25. For it, `1 - normalized` is negative, and a negative value meets the first test, `<= 0.25` (`OpacityByAge`, `ThreeSightingExample`).
- The wrapper breaks only at `' '`, the character `rfind(' ')` searches for. Tabs and other whitespace are never break points.
- For width 0 the recursion never ends on a non-empty line, and for a negative width it never ends on any line, so `Wrap` requires `width >= 1`. Every call site uses the default 50.
- The wrapper does not treat `<br>` already in a field as markup: it can cut through it, and then the display lines no longer show that break (`WrapCutsMarkup`, `CutMarkupLines`). Only for fields without `<br>` are the display lines exactly the wrapped pieces (`WrapRestores`). The width bound holds either way, since a cut piece only gets shorter (`WrapLinesFit`, `HoverLinesFit`).
- The code floors the seconds to minutes before taking `abs`, so a sighting one second in the future counts as one minute (`MinutesApart`).

## Left out

- `readCSV`: CSV reading through pandas and its exception translation are file I/O.
- Access tokens, Chart Studio credentials and sharing configuration: credential plumbing with no logic.
- The scraper started at import time: an external process.
- `py.plot` publishing to the cloud: a network side effect.
- The commented-out Dash application: it is not code that runs.
- `mostRecentDF`: it is computed but never used.
- Plotly objects: figures, traces and layout become plain values (`MapDocument`, `Segment`, `Marker`). Line colour and width, and marker symbol, size, colour and hover-label style, are fixed constants with no logic, so they are not recorded.
- Reading the wall clock and `tz_localize('America/Los_Angeles')`: the clock readings, one per record, are a parameter. Both instants are seconds on one clock, so time zones and the case of a naive timestamp are not modelled. In particular, `tz_localize('America/Los_Angeles')` with its default `ambiguous='raise'` raises on the repeated hour of the autumn clock change, which aborts `createMap`. The model has no such error.
- Sub-second precision: `total_seconds()` is a float, but instants here are whole seconds. Flooring to minutes gives the same result for whole seconds.
- Timestamp parsing with `errors='coerce'` and NaT values: this is a library parser. A record's `created` is taken as already parsed, and `createdText` is its printed form.
- `str()` of pandas cells (`nan`, `None`, numbers): fields are taken as their text already. Passing a non-string `type` to `limitLineWidth` (a `TypeError` in the source) is not modelled.
- Ids: a present id is held as text and compared by text equality; the cell type pandas infers for the `id` column (number or string) is not modelled. A missing id is `None` and never links.
- Python's recursion limit: `limitLineWidth` recurses once per break, so a line needing about 1000 breaks (some 50,000 characters at width 50) raises `RecursionError`. `Wrap` has no such limit.
- Floating point: tiers, thresholds and ages are exact `real` and `int` values.
- MapComposer.ComputeOpacities: the `time_diff` column is a fresh array owned by the method, not a column of a table shared with other code. The three passes overwrite that array in place, as the source overwrites the column.
