# forgehub, modelled in Dafny

forgehub draws text on a GitHub contribution calendar. It looks at how active a
user has been (`events.py`). It turns each character of a text into a 7×3 block
of data levels 0..4, laid out on consecutive days that end on a Saturday
(`forgehub/render.py`, and the older `render.py`). It scales the levels to commit
counts. Then, through pygit2, it makes exactly that many commits per day in a
repository and pushes them (`forgehub/git.py`, and the older `git.py`). The
command line lives in `forgehub/__init__.py`. A separate authoring tool,
`tools/generate.py`, reads a picture drawn with the characters ` -=H#` and prints
the level tuple for the glyph table.

The model is one Dafny module per source file, plus a few shared modules.

| file | module | what it holds |
|---|---|---|
| `wrappers.dfy` | `Wrappers` | `Option`, `Result` and `Outcome` (pass or raise) |
| `text.dfy` | `Text` | Python's `str.split`, `sep.join`, `str.splitlines` and `str(int)` on `seq<char>` |
| `calendar.dfy` | `Calendar` | Days as proleptic ordinals (`date.toordinal()`), so the ISO weekday is the day modulo 7; `get_last_week_end` |
| `pydict.dfy` | `PyDict` | An insertion-ordered Python dict from dates to ints; `items()`, sorting by date, and the scaling comprehension with Python indexing |
| `glyphs.dfy` | `Glyphs` | `CHARACTERS_5_BIT`: 52 characters, 21 levels each |
| `render.dfy` | `ForgeRender` | `forgehub/render.py`: the `DataLevelMap` class, `render_data_levels`, `TextRenderer.render`, `__str__` |
| `legacy_render.dfy` | `LegacyRender` | `render.py`: the older renderer, which walks the text forwards |
| `events.dfy` | `Events` | Event weights, the busiest day, and the boundary table |
| `generate.dfy` | `Generate` | `tools/generate.py`: reading a picture back into levels and printing the tuple |
| `repository.dfy` | `GitRepo` | An abstract git repository (commits, HEAD, remotes, pushes) and the commit plan both drivers follow |
| `git_driver.dfy` | `ForgeGit` | `forgehub/git.py`: credentials, `_did_repo_exist`, and the `GitDriver` class |
| `legacy_git.dfy` | `LegacyGit` | `git.py`: the older `Driver` class |
| `cli.dfy` | `Cli` | `forgehub/__init__.py`: token and key defaults, the repository name, the path-or-URL choice, and exit codes |

Each part of the outside world is a parameter:

- The current date is a day number `now`.
- Library calls that may fail are oracles: pygit2 init, clone and push, the GitHub create call, and reference-name validation.
- A forging run that fails is given as a `Failure`: the index of the first commit that fails, and how it fails.

## Model

| member | source | states |
|---|---|---|
| Text.NatToString | forgehub/git.py:224 | `str(n)` of a non-negative number is at least one character, all digits |
| Text.NatToStringValue | forgehub/git.py:224 | `int(str(n)) == n`, and `str(n)` starts with `0` only for 0 |
| Text.NatToStringLength | forgehub/git.py:224 | A number below `10^w` takes at most `w` digits |
| Text.IntToString | tools/generate.py:46 | `str(i)` consists of digits and `-` |
| Text.IntToStringValue | tools/generate.py:46 | `str(i)` starts with `-` iff `i` is negative, and the digits read back as `i`, or as `-i` after the sign |
| Text.ZeroPad | forgehub/git.py:224 | Zero padding gives at least `width` characters, all digits |
| Text.ZeroPadValue | forgehub/git.py:224 | Zero padding reads back as the number, and is exactly `width` long unless the number needs more digits |
| Text.LeadingZeros | forgehub/git.py:224 | Zeros in front of a decimal number do not change its value |
| Text.JoinSplit | forgehub/__init__.py:145 | Joining the pieces of `s.split(sep)` with `sep` gives `s` back |
| Text.SplitPiecesLackSeparator | forgehub/__init__.py:145 | No piece of `s.split(sep)` contains `sep` |
| Text.SplitWithoutSeparator | events.py:64 | Text without the separator splits into itself alone |
| Text.SplitPrefix | forgehub/render.py:56 | Splitting `a + sep + b`, where `a` has no `sep`, gives `a` followed by the pieces of `b` |
| Text.SplitConcat | forgehub/render.py:56 | Splitting `a + sep + b` gives the pieces of `a` followed by the pieces of `b` |
| Text.SplitJoin | forgehub/render.py:56 | Splitting `sep.join(parts)` on `sep` gives the parts back, when no part holds `sep` |
| Text.JoinEndsWithLast | forgehub/render.py:56 | `sep.join(parts)` ends with its last part |
| Text.SplitLinesJoin | tools/generate.py:63 | `splitlines()` of newline-free lines joined by `\n` gives those lines back, when the last line is non-empty |
| Text.Split | events.py:64 | `s.split(sep)` always gives at least one piece |
| Text.Join | forgehub/render.py:56 | `sep.join(parts)` starts with its first part and is at least `len(parts) - 1` characters long |
| Text.FirstPiece | forgehub/__init__.py:145 | `s.split(sep)[0]` is a prefix of `s` without `sep`, followed in `s` by `sep` or by the end |
| Text.LastPiece | events.py:64 | `s.split(sep)[-1]` is a suffix of `s` without `sep`, preceded in `s` by `sep` or by the start |
| Text.SplitLines | tools/generate.py:63 | No line `splitlines()` gives contains a newline |
| Text.FirstPieceIsLongestPrefix | forgehub/__init__.py:145 | `s.split(sep)[0]` is the longest prefix of `s` without `sep`; it is followed by `sep` or the end of `s` |
| Text.LastPieceIsLongestSuffix | forgehub/__init__.py:145 | `s.split(sep)[-1]` is the longest suffix of `s` without `sep`; it is preceded by `sep` or the start of `s` |
| Text.LastPieceIs | events.py:64 | For a word without `sep`: the last piece equals the word iff `s` is the word, or `s` ends with `sep` followed by the word |
| Text.LastPieceLacksSeparator | events.py:64 | A word that contains `sep` is never the last piece |
| Calendar.IsoWeekday | forgehub/render.py:291 | `isoweekday()` lies in 1..7 and agrees with the day number modulo 7 |
| Calendar.LastWeekEnd | forgehub/render.py:287-291 | The result is a Saturday 0 to 6 days before `now`, and it is `now` itself when `now` is a Saturday. The copy at render.py:227-231 is the same expression |
| Calendar.LastWeekEndIsLatest | forgehub/render.py:287-291 | Every Saturday on or before `now` is on or before the result, so it is the latest such Saturday |
| Calendar.Civil | forgehub/git.py:224 | The calendar date of a day number has a month in 1..12 and a day of month in 1..31 |
| Calendar.FromEraDay | forgehub/git.py:224 | The date of a day inside a 400-year era has a month in 1..12 and a day of month in 1..31 |
| Calendar.CivilOfOrdinal | forgehub/git.py:224 | For every valid date, converting its `toordinal()` back gives that date |
| Calendar.OrdinalOfCivil | forgehub/git.py:224 | For every day number, the conversion gives a valid date whose `toordinal()` is that number, so the conversion and `toordinal()` are inverse |
| Calendar.CivilOfEraDay | forgehub/git.py:224 | A day number's date is the date of its day within its 400-year era |
| Calendar.CivilOfParts | forgehub/git.py:224 | The conversion gives the year, month and day a day number is made of |
| Calendar.OrdinalOfParts | forgehub/git.py:224 | A date made of era, year, month and day parts is valid, and its `toordinal()` is the day number those parts make |
| Calendar.Padded | forgehub/git.py:224 | A zero-padded number is at least `width` characters long, each a digit or `-` |
| Calendar.PaddedValue | forgehub/git.py:224 | A number below `10^width` pads to exactly `width` digits that read back as the number |
| Calendar.IsoDate | forgehub/git.py:224 | `str(date.date())` is at least 10 characters, each a digit or `-` |
| Calendar.IsoDateFields | forgehub/git.py:224 | For a year in 1..9999, `str(date.date())` is exactly `YYYY-MM-DD`, and its three fields read back as the date's year, month and day |
| Glyphs.Glyph | forgehub/render.py:75-283 | Every glyph in the table has exactly 21 levels, each of them 0, 3 or 4. The table at render.py:11-219 has the same 52 entries |
| Glyphs.GlyphOf | forgehub/render.py:334 | A looked-up glyph has 21 levels, each a valid data level 0..4 |
| PyDict.Insert | forgehub/render.py:20-21 | `d[k] = v` maps `k` to `v` and keeps every other key's value. An existing key keeps its place in the order, and a new key goes last |
| PyDict.InsertItems | forgehub/render.py:20-21 | After `d[k] = v`, `items()` has `(k, v)` in place of the old pair for an existing key, or appended for a new one; every other pair stays where it was |
| PyDict.Items | forgehub/render.py:58-63 | `items()` lists one (date, level) pair per key, in insertion order |
| PyDict.InsertByDateKeeps | forgehub/render.py:28-33 | Inserting into a date-sorted list keeps it sorted and adds exactly the new pair |
| PyDict.InsertByDateItems | forgehub/render.py:28-33 | Inserting by date adds exactly one copy of the new pair and loses nothing |
| PyDict.InsertByDateBound | forgehub/render.py:28-33 | Inserting a pair no earlier than a bound into a list no earlier than it keeps every date at or after the bound |
| PyDict.SortByDateSorts | forgehub/render.py:28-33 | `sorted(items, key=date)` is ordered by date and is a permutation of the items |
| PyDict.ReverseAt | forgehub/render.py:317 | Element `i` of `reversed(s)` is `s[len(s)-1-i]` |
| PyDict.InsertLargest | forgehub/render.py:28-33 | A pair later than every date in a sorted list is inserted at its end |
| PyDict.SortDescending | forgehub/render.py:28-33 | Sorting items whose dates strictly decrease reverses them |
| PyDict.Scale | render.py:222-224 | The comprehension succeeds iff every level indexes the boundaries under Python's indexing rules; otherwise it raises `IndexError` |
| PyDict.ScaleReplacesLevels | render.py:222-224 | With levels in range, scaling keeps every date and its order, and maps level `l` to `boundaries[l]` |
| PyDict.ScaleMonotone | forgehub/render.py:65-70 | With non-decreasing boundaries, raising one date's level does not lower that date's count and changes no other date's count |
| ForgeRender.RowLenBound | forgehub/render.py:35-52 | A row index `j` is within row `i`'s length iff the level at position `7j+i` exists |
| ForgeRender.Deal | forgehub/render.py:27 | The picture always has 7 rows |
| ForgeRender.DealSnoc | forgehub/render.py:37-52 | Drawing one more level appends its character to row `n % 7` and changes no other row |
| ForgeRender.Chars | forgehub/render.py:38-48 | Drawing levels gives one character per level |
| ForgeRender.FirstInvalidNone | forgehub/render.py:49-50 | No level is rejected iff every level is in 0..4 |
| ForgeRender.FirstInvalidIsInvalid | forgehub/render.py:49-50 | The rejected level occurs in the input and has no character |
| ForgeRender.FirstInvalidAt | forgehub/render.py:49-50 | The rejected level sits at a position before which every level is in 0..4 |
| ForgeRender.Show | forgehub/render.py:26-56 | `__str__` succeeds iff every level is in 0..4; its error names a level of the input outside 0..4 |
| ForgeRender.ShowRows | forgehub/render.py:26-56 | `__str__` raises iff some level is outside 0..4, naming the first such level in date order. Otherwise there are 7 rows, row `i` has `n//7 + (1 if i < n%7 else 0)` characters, and row `i` column `j` shows level `7j+i` as one of ` -=H#` |
| ForgeRender.PlacedPrepend | forgehub/render.py:317-319 | Storing one more level on the day before the oldest stored day gives the map for the longer level list |
| ForgeRender.PlacedPrependKeys | forgehub/render.py:317-319 | That day was not yet a key, and it is added at the end of the insertion order |
| ForgeRender.PlacedPrependValues | forgehub/render.py:317-319 | The mapping gains exactly that day and its level |
| ForgeRender.DistinctSeqCard | forgehub/render.py:317-319 | Distinct dates in a list number as many as the list is long |
| ForgeRender.Placed | forgehub/render.py:314-321 | Placing `n` levels gives `n` keys, every one of them within the `n` days ending at the end date |
| ForgeRender.PlacedDays | forgehub/render.py:305-321 | `n` levels fill exactly the `n` consecutive days ending at the end date. Level `k` lands on `end - (n-1-k)`, and the keys are inserted newest first |
| ForgeRender.PlacedDateSorted | forgehub/render.py:26-33 | Reading the rendered map in date order gives the levels back in their original order |
| ForgeRender.Blocks | forgehub/render.py:338-344 | Each character contributes exactly 28 days |
| ForgeRender.BlocksLayout | forgehub/render.py:338-344 | In date order, each character's block is 7 zero days followed by its 21 glyph levels |
| ForgeRender.TextLevels | forgehub/render.py:332-344 | Text of length `n` renders to exactly `28n` levels |
| ForgeRender.TextLevelsCons | forgehub/render.py:332-344 | The first character's block (7 zeros, then its glyph) comes before the rest of the text's levels |
| ForgeRender.TextLevelsStep | forgehub/render.py:332-344 | The same split, taken at any position of the text |
| ForgeRender.LastUnsupported | forgehub/render.py:332-336 | Walking the text backwards, the rejected character is the last unsupported one; there is none iff every character is in the table |
| ForgeRender.TextRendering | forgehub/render.py:324-346 | `TextRenderer.render` succeeds iff its input is a string of supported characters. A non-string gives `TypeError`, and a success holds `28n` days |
| ForgeRender.PlacedBlocks | forgehub/render.py:329-346 | The map has exactly `28n` consecutive days ending at the end date. Glyph level `20-o` of character `i` lands on `end - 28(n-1-i) - o`, and the 7 days just older than each glyph are 0 |
| ForgeRender.PlacedCell | forgehub/render.py:338-344 | One cell of that layout: the day is in the map and holds the glyph level, or 0 for a spacer day |
| ForgeRender.PlacedAt | forgehub/render.py:317-319 | Level `p` of `n` is stored on day `end - (n-1-p)` |
| ForgeRender.BlockAt | forgehub/render.py:338-344 | Position `28i+27-o` of the level list is glyph level `20-o` of character `i`, or 0 for `o >= 21` |
| ForgeRender.RenderTextLayout | forgehub/render.py:324-346 | Text made only of supported characters renders to `28n` consecutive days ending at `end_date`, or at the last Saturday when none is given. Each character's glyph lands on its days, and the characters are in reading order, oldest first |
| ForgeRender.RenderTextRejects | forgehub/render.py:326-336 | Rendering fails iff the input is not a string or has an unsupported character. A non-string gives `TypeError`; otherwise the error names the last unsupported character, the first one met walking backwards |
| ForgeRender.DataLevelMap.constructor | forgehub/render.py:16-18 | A new map is empty |
| ForgeRender.DataLevelMap.Set | forgehub/render.py:20-21 | `__setitem__` stores the level, keeping an existing date's place in the order or appending a new date |
| ForgeRender.DataLevelMap.Get | forgehub/render.py:23-24 | `__getitem__` gives the stored level iff the date is a key, and `KeyError` otherwise |
| ForgeRender.DataLevelMap.ScaleToBoundaries | forgehub/render.py:65-70 | Succeeds iff every level indexes the boundaries. On success the map becomes the scaled map; on `IndexError` it is unchanged |
| ForgeRender.DataLevelMap.ToString | forgehub/render.py:26-56 | `__str__` gives exactly the picture (or error) `ShowRows` describes, for the levels in date order |
| ForgeRender.DrawCalendar | forgehub/render.py:35-56 | The pop-and-append loop produces the 7-row picture of the levels, or stops at the first invalid level |
| ForgeRender.DrawOne | forgehub/render.py:38-52 | Drawing one valid level keeps the loop's picture in step with the levels consumed |
| ForgeRender.DrawingStops | forgehub/render.py:49-50 | Meeting an invalid level in the loop is exactly the error the picture function gives |
| ForgeRender.DrawingDone | forgehub/render.py:53-56 | When the levels run out, the joined rows are the picture |
| ForgeRender.FirstInvalidPrefix | forgehub/render.py:49-50 | Skipping valid levels does not change which level is rejected first |
| ForgeRender.StepBack | forgehub/render.py:338-340 | Storing a run of levels while stepping back one day each extends the placed map and moves the date back by the run's length |
| ForgeRender.PlacedStepBack | forgehub/render.py:338-340 | One step of that loop stores the next older level on the next older day |
| ForgeRender.RenderDataLevels | forgehub/render.py:305-321 | `render_data_levels` builds a new map holding the levels on consecutive days ending at the end date, or at the last Saturday when none is given |
| ForgeRender.RenderText | forgehub/render.py:324-346 | `TextRenderer.render` succeeds iff the rendering described above succeeds, with the same map, or with the same `TypeError` or `ValueError` |
| ForgeRender.RenderingStopsAt | forgehub/render.py:332-336 | The backward walk stops at the first unsupported character it meets |
| ForgeRender.RenderingPlaces | forgehub/render.py:329-346 | With every character supported, the map is the text's levels placed back from the anchor date |
| LegacyRender.FirstUnsupported | render.py:250-254 | Walking forwards, the rejected character is the first unsupported one; there is none iff every character is supported |
| LegacyRender.LegacyRendering | render.py:242-264 | The older `render` succeeds iff its input is a string of supported characters; a non-string gives `TypeError` |
| LegacyRender.Backwards | render.py:250-262 | After `i` characters there are `i` glyphs of 21 levels each, the latest character's first |
| LegacyRender.Mirrored | render.py:250 | Reversing the text keeps its length |
| LegacyRender.BackwardsStep | render.py:256-262 | Processing one more character puts its 7 zeros and glyph before (older than) everything stored so far |
| LegacyRender.StepBackDict | render.py:256-262 | Storing a run of levels while stepping back one day each extends the placed dict and moves the date back by the run's length |
| LegacyRender.Render | render.py:242-264 | `render` returns exactly the legacy rendering for the day, whatever `starting_date` is |
| LegacyRender.LegacyMirrorsCurrent | render.py:250 | The older renderer draws the text as the newer one draws it reversed, anchored at the last Saturday |
| LegacyRender.PlacedBackwards | render.py:256-262 | For glyphs listed newest first, level `20-o` of the `i`-th newest glyph lands on `end - 28i - o`, and the 7 days just older than each glyph are 0 |
| LegacyRender.LegacyLayout | render.py:247-264 | Supported text fills `28n` consecutive days ending at the last Saturday; the first character occupies the newest days |
| LegacyRender.LegacyRejects | render.py:244-254 | Rendering fails iff the input is not a string or has an unsupported character. A non-string gives `TypeError`; otherwise the error names the first unsupported character |
| Events.CountedKinds | events.py:59-76 | A fork weighs 1. Issues and pull requests weigh 1 iff opened, reviews 1 iff created |
| Events.PushCount | events.py:62-65 | A push weighs its commit count iff the last `/` segment of its ref is the default branch, and 0 otherwise |
| Events.PushToSlashedBranch | events.py:64 | A push to a default branch whose name contains `/` always weighs 0 |
| Events.CountedDayIsDecember2nd2021 | events.py:101 | The one day the filter lets through is 2021-12-02, a Thursday |
| Events.CalendarEventCount | events.py:59-76 | Only forks, pushes, issues, pull requests and reviews weigh anything. Every kind but a push weighs at most 1, and a push at most its commit count |
| Events.Tally | events.py:98-102 | The frequency dict holds at most one key, and that key can only be 2021-12-02 |
| Events.AnyOnSnoc | events.py:100-101 | Some event falls on a day iff one before the last does, or the last does |
| Events.DayTotal | events.py:100-102 | A day with no events on it totals 0 |
| Events.TallyHoldsCountedDay | events.py:98-102 | The frequency dict has the key 2021-12-02 iff some event falls on that day, and then holds that day's total weight |
| Events.MaxByCount | events.py:104 | `max(items, key=count)` is the first pair with the largest count; an empty list raises `ValueError` |
| Events.MaxEventsPerDay | events.py:79-104 | Raises `ValueError` iff no event falls on 2021-12-02. Otherwise it returns that day with its total weight |
| Events.PyRange | events.py:123 | `range(start, stop, step)` raises `ValueError` iff `step` is 0 |
| Events.RangeValuesMeaning | events.py:123 | Value `i` of a range is `start + i*step`. Every value lies before `stop` in the step's direction, and the next one would not |
| Events.RangeValuesAt | events.py:123 | Value `i` of a range is `start + i*step` |
| Events.RangeValuesBefore | events.py:123 | Every value of a range lies before `stop` in the step's direction |
| Events.RangeValuesEnd | events.py:123 | The value after a range's last one is at or past `stop` |
| Events.RangeOfCount | events.py:123 | `range(start, start + k*step, step)` with `step > 0` has exactly the `k` values `start + i*step` |
| Events.CommitsPerDataLevel | events.py:107-123 | As written: raises `ValueError` iff the step is 0 (a maximum of 0 when diluting, a maximum in 0..3 otherwise), and otherwise returns 4 values |
| Events.CommitsPerDataLevelValues | events.py:107-123 | Raises iff the step is 0 (max 0, or max below 4 without dilution). Otherwise it returns exactly 4 values `start + l*step`, strictly increasing when max > 0 |
| Events.FourEntryTableRejectsLevel4 | events.py:107-123 | Scaling any map that holds a level-4 day by the 4-value table raises `IndexError` |
| Events.BoundariesPerDataLevel | events.py:107-123 | Corrected with `step*5`: the same failure condition, and otherwise 5 values, one per data level 0..4 |
| Events.BoundariesScaleEveryLevel | events.py:107-123 | The corrected 5-value table maps every level 0..4 of a map to `start + level*step`, keeping every date |
| Generate.DataLevelOfInvertsLevelChar | tools/generate.py:8-28 | `int(DataLevel(c))` is defined exactly on ` -=H#`, and it inverts the character `__str__` draws for each level |
| Generate.DataLevelOf | tools/generate.py:8-28 | `int(DataLevel(c))` is defined iff `c` is one of ` -=H#`, and is then in 0..4 |
| Generate.Levels | tools/generate.py:70 | Mapping succeeds iff every character is one of ` -=H#`, and then gives one level per character, `int(DataLevel(c))` of it. Otherwise the error names the first character outside ` -=H#` |
| Generate.LevelsOfChars | tools/generate.py:70 | Reading back the characters drawn for valid levels gives those levels |
| Generate.MinLen | tools/generate.py:69 | `zip` stops at the shortest line: the length is at most every line's length and equals one of them |
| Generate.Column | tools/generate.py:69 | One `zip` tuple holds one character per line |
| Generate.ColumnsLength | tools/generate.py:69 | The linear text has as many characters as columns times lines |
| Generate.ColumnsAt | tools/generate.py:69 | The column-major position of line `i`, column `c` holds `lines[i][c]` |
| Generate.LinearizeColumnMajor | tools/generate.py:69 | The linear text has `r × min line length` characters, and position `c*r + i` holds `lines[i][c]` |
| Generate.Linearize | tools/generate.py:69 | The linear text has `min line length × line count` characters, and none for no lines |
| Generate.Mapped | tools/generate.py:63-70 | More than 7 lines fail with the line-count error, and a success holds `min line length × line count` levels |
| Generate.ColumnMajorSplit | tools/generate.py:69 | Every position below `m × r` is `column × r + line` for a column below `m` and a line below `r` |
| Generate.ReadableFromLinear | tools/generate.py:69-70 | If every character of the linear text is a level character, so is every character in the columns `zip` keeps |
| Generate.LinearFromReadable | tools/generate.py:69-70 | If every character in the kept columns is a level character, so is every character of the linear text |
| Generate.LinearReadable | tools/generate.py:69-70 | Every character of the linear text is a level character iff every character in the first min-line-length columns is |
| Generate.MappedFails | tools/generate.py:63-70 | Reading fails iff there are more than 7 lines or a character outside ` -=H#` within the first min-line-length columns. More than 7 lines give the line-count error; otherwise the error names such a character |
| Generate.MappedValues | tools/generate.py:69-70 | An accepted source of `r` lines has `min line length × r` levels, and level `col × r + i` is `int(DataLevel(c))` of line `i`'s character in column `col` |
| Generate.LevelsAt | tools/generate.py:70 | Each position of an accepted text gives `int(DataLevel(c))` of its character |
| Generate.LevelsOfBlanks | tools/generate.py:70 | Two blanks read as two level-0 days |
| Generate.ZipDropsLongerTail | tools/generate.py:63-70 | `zip` ignores characters past the shortest line: ` x` over ` ` reads as two level-0 days, `x` notwithstanding |
| Generate.CommaPositions | tools/generate.py:52 | `re.finditer(",")` gives increasing positions, each holding a comma |
| Generate.CommaPositionsComplete | tools/generate.py:52 | Every comma of the text is found |
| Generate.EverySeventh | tools/generate.py:52 | `[6::7]` keeps positions 6, 13, 20, …, `len // 7` of them |
| Generate.Wrapped | tools/generate.py:54-55 | Inserting the breaks adds one character per break |
| Generate.Breaks | tools/generate.py:52 | The break positions are increasing, each holds a comma, and there is one per 7 commas |
| Generate.WrappedUnfold | tools/generate.py:54-55 | The last break inserts a newline right after its comma |
| Generate.WrappedExtend | tools/generate.py:54-55 | Text after the last break is carried over unchanged |
| Generate.WrappedUpTo | tools/generate.py:54-55 | After `n` insertions the text is `n` characters longer |
| Generate.InsertBreak | tools/generate.py:54-55 | The insertion at `offset + i + 1` puts the next newline right after its comma, since earlier insertions shifted it by `offset` |
| Generate.WrappedUpToAll | tools/generate.py:54-55 | Doing all the insertions in turn gives the wrapped text |
| Generate.DisplayDataLevel | tools/generate.py:45-56 | The printed text is the one-line tuple, or that tuple with a newline after every 7th comma |
| Generate.OneLine | tools/generate.py:46 | The tuple text starts with `(` and ends with `)` |
| Generate.Displayed | tools/generate.py:45-56 | The printed text is as long as the one-line tuple, plus one newline per 7 commas unless `--oneline` is given |
| Generate.CutPrefix | tools/generate.py:54-55 | The lines before the last break do not depend on the text after it |
| Generate.WrappedSplitStep | tools/generate.py:54-55 | Splitting the wrapped text on newlines gives the lines before the last break, then the text after it |
| Generate.WrappedLineCount | tools/generate.py:52-55 | `k` breaks give `k + 1` lines |
| Generate.WrappedLastLine | tools/generate.py:54-55 | The last line is the text after the last break |
| Generate.WrappedLine | tools/generate.py:54-55 | Line `k` is the text between break `k-1` and break `k` |
| Generate.WrappedLines | tools/generate.py:52-56 | The printed lines are exactly the pieces between consecutive breaks |
| Generate.OneLineCommas | tools/generate.py:46 | The one-line tuple of `n` values has `n - 1` commas |
| Generate.JoinWithCommas | tools/generate.py:46 | Joining `n` comma-free parts with `", "` gives `n - 1` commas |
| Generate.CommaFree | tools/generate.py:46 | A number's text has no comma |
| Generate.CommaCountConcat | tools/generate.py:52 | Commas in a concatenation add up |
| Generate.OneLineFlat | tools/generate.py:46-49 | The one-line tuple has no newline |
| Generate.CutEndsInComma | tools/generate.py:55 | Every line but the last ends with the comma it was broken after |
| Generate.DisplayedLines | tools/generate.py:52-56 | `n` values print on `(n-1)//7 + 1` lines, and every line but the last ends with a comma |
| Generate.GlyphPrintsOnThreeLines | tools/generate.py:52-56 | A 21-value glyph prints as 3 lines, the first two ending at the comma they were broken after |
| Generate.NoNewlineInJoin | tools/generate.py:46 | Joined numbers hold no newline |
| Generate.BreaksAreEverySeventhComma | tools/generate.py:52 | The breaks are exactly the 7th, 14th, … commas |
| Generate.Generate | tools/generate.py:59-72 | `main` fails iff the source has more than 7 lines, or a character outside ` -=H#` within the first min-line-length columns (the ones `zip` keeps). More than 7 lines give the line-count error; otherwise the error names such a character. Otherwise it prints the tuple of the column-major levels |
| Generate.DealRows | forgehub/render.py:35-56 | Every row of a picture of `7k` levels has `k` characters and no newline |
| Generate.LinearizeDeal | tools/generate.py:69 | Reading a full 7-row picture column-major gives back the characters in drawing order |
| Generate.EmptyPictureReadsBack | tools/generate.py:63-70 | The picture of no levels reads back as no levels |
| Generate.JoinOfEmpties | tools/generate.py:63 | Joining empty lines gives only separators |
| Generate.PictureReadsBack | tools/generate.py:63-70 | For `7k` levels in 0..4, reading `__str__`'s picture back with the tool gives those levels |
| Generate.BlocksValid | forgehub/render.py:338-344 | Glyph blocks hold only valid levels |
| Generate.RenderedPictureReadsBack | tools/generate.py:63-70 | For supported text, the rendered map's picture reads back as the text's levels in date order |
| GitRepo.HeadParents | forgehub/git.py:232-237 | The new commit's parents are `[head.target]` when HEAD names a commit, and empty when HEAD is unborn (the `GitError` fallback) |
| GitRepo.CommitOnHead | forgehub/git.py:232-248 | `create_commit` on HEAD adds one commit, after the existing ones and leaving them unchanged, with the message, HEAD's parents and the date; HEAD moves to it |
| GitRepo.CommitOnHeadValid | forgehub/git.py:232-248 | A commit made on HEAD keeps the repository well formed, since its parent is older |
| GitRepo.PlanConcat | forgehub/git.py:222-223 | The commit plan of consecutive items is the plans of each, in order |
| GitRepo.PlanAt | forgehub/git.py:222-224 | Commit `i` of item `j` is message `commit #{i+1} for {date}` on that item's date |
| GitRepo.Message | forgehub/git.py:224 | The message starts with `commit #` and is at least 24 characters long |
| GitRepo.MessageNamesCommit | forgehub/git.py:224 | The word after `#` is the commit number in decimal, and the last word is the date's ISO text |
| GitRepo.MessageWords | forgehub/git.py:224 | In `commit #n for d`, with no space in `n` or `d`, `n` is the word after `#` and `d` the last word |
| GitRepo.DayPlan | forgehub/git.py:223-224 | `range(count)` gives `max(count, 0)` commits, all on that item's date |
| GitRepo.Plan | forgehub/git.py:222-224 | The plan has as many commits as the positive counts add up to |
| GitRepo.AppendShape | forgehub/git.py:232-248 | Each new commit goes on HEAD with its message and date. The first has HEAD's old parent list (none when HEAD is unborn), each later one the commit before it. HEAD ends on the last one, and nothing else changes |
| GitRepo.Append | forgehub/git.py:232-248 | Committing changes only the commits and HEAD; the path, remotes, identity and pushes stay the same |
| GitRepo.AppendValid | forgehub/git.py:232-248 | Committing keeps the repository well formed |
| GitRepo.AppendConcat | forgehub/git.py:222-250 | Making two runs of commits in turn is the same as making them as one run |
| GitRepo.DayStep | forgehub/git.py:223-248 | The `i+1`-th commit of a day is the `i`-th plus one commit on HEAD with message `commit #{i+1} for {date}` |
| GitRepo.ForgeDay | forgehub/git.py:223-250 | The inner loop makes the day's commits up to the first failure. It reports a failure iff one falls within the day, and the attempt counter advances by the commits made |
| GitRepo.ForgeInto | forgehub/git.py:222-250 | The outer loop makes the plan's commits up to the first failure and keeps them. It reports a failure iff one falls within the plan |
| GitRepo.StopInDay | forgehub/git.py:222-250 | A failure inside item `j` leaves the commits of items before `j` plus the first ones of item `j` |
| GitRepo.PlanIndex | forgehub/git.py:222-224 | Item `j`'s `i`-th day entry sits right after the commits of the items before it |
| GitRepo.PlanAround | forgehub/git.py:222-224 | The plan is the items before `j`, then item `j`'s day, then the items after it |
| GitRepo.DayPlanAt | forgehub/git.py:223-224 | Entry `i` of a day is `commit #{i+1} for {date}` on that date |
| GitRepo.PlanStep | forgehub/git.py:222-223 | The plan of one more item adds that item's day of commits |
| GitRepo.PlanPrefix | forgehub/git.py:222-224 | A plan prefix ending inside item `j` is the earlier items' plans plus the start of item `j`'s |
| ForgeGit.Credentials | forgehub/git.py:40-46 | The username credential `git` iff the username bit is allowed. Otherwise the keypair (`git`, public, private, no passphrase) iff the SSH-key bit is allowed. Otherwise none |
| ForgeGit.Messages | forgehub/git.py:71 | The message list exists iff every error has a `message`, and then lists them in order |
| ForgeGit.DidRepoExist | forgehub/git.py:65-75 | True iff `errors` is present, every error has a message, and some message is `name already exists on this account`; a missing key gives false |
| ForgeGit.CreatedUrl | forgehub/git.py:158-199 | A created repository is cloned from its ssh URL. A refusal is replaced only when the name existed and replacing is asked for; otherwise there is no URL |
| ForgeGit.FirstInvalid | forgehub/git.py:279-281 | The first refspec that is not a valid reference name, and none iff all are valid |
| ForgeGit.GitDriver.constructor | forgehub/git.py:83-97 | A new driver keeps `cleanup`, has no repository, is not marked local and has removed nothing |
| ForgeGit.GitDriver.Exit | forgehub/git.py:102-106 | The repository's `path` (its `.git` directory; the checked-out files, `repr.txt` among them, stay) is removed only when no exception was raised, `cleanup` is set and the repository was not local. With no repository this raises `AttributeError`; nothing else changes |
| ForgeGit.GitDriver.InitRepo | forgehub/git.py:108-119 | A failed init raises `DriverInitError` and changes nothing. Success sets the repository and marks it local |
| ForgeGit.GitDriver.CloneInto | forgehub/git.py:121-140 | A failed clone raises `DriverInitError` and changes nothing. Success sets the repository and leaves the local flag alone |
| ForgeGit.GitDriver.Create | forgehub/git.py:142-199 | With no URL (a refusal not replaced, or a failed replacement) or a failed clone, it raises `DriverInitError` and changes nothing. Otherwise it clones the URL into a path equal to `name` |
| ForgeGit.GitDriver.ForgeCommits | forgehub/git.py:201-258 | With no repository it raises `AttributeError`; with no user identity, `DriverForgeError` before any commit. Otherwise it makes the planned commits in `items()` order up to the first failure and keeps them. It passes iff nothing failed; a failed file open raises `OSError`, any other failure `DriverForgeError` |
| ForgeGit.GitDriver.Push | forgehub/git.py:261-292 | Explicit refspecs are all checked first, and the first invalid one raises `DriverPushError`. Then a missing repository raises `AttributeError`, an unknown remote or a transport failure raises `DriverPushError`, and otherwise one push of the refspecs (default `refs/heads/main`) is recorded |
| LegacyGit.SourceOf | git.py:65-74 | Clone from `ssh` if given, else from `https`, else init at the path |
| LegacyGit.Driver.constructor | git.py:41-74 | A driver holds the repository and where it came from |
| LegacyGit.Driver.Open | git.py:41-74 | The constructor clones or inits as `SourceOf` chooses; a pygit2 failure raises `GitError` |
| LegacyGit.Driver.ForgeCommits | git.py:76-128 | With no identity it raises `ValueError`. Otherwise it makes the planned commits up to the first failure and keeps them; a failure raises `GitError` when committing, `OSError` otherwise |
| LegacyGit.Driver.Push | git.py:130-143 | An unknown remote returns (does not raise) a `ValueError` and pushes nothing. Otherwise it pushes `refs/heads/main`, and a transport failure raises `GitError` |
| Cli.GetToken | forgehub/__init__.py:89-96 | An explicit token wins; otherwise there is a token iff a token file is given |
| Cli.TokenIsFirstLine | forgehub/__init__.py:94 | The file's token is its first line without the newline |
| Cli.PathJoin | forgehub/__init__.py:132 | `os.path.join` keeps an absolute second part as is, and otherwise puts the first part before the second |
| Cli.KeyPath | forgehub/__init__.py:132 | A default key path exists iff `$HOME` is set |
| Cli.KeyPathUnderHome | forgehub/__init__.py:132-137 | The default key is `$HOME/.ssh/<name>` |
| Cli.GetSshKeys | forgehub/__init__.py:123-141 | Given keys pass through. A missing key defaults to `$HOME/.ssh/id_rsa` or `$HOME/.ssh/id_rsa.pub`, and an unset `$HOME` then raises `TypeError` |
| Cli.RepoNameIsSegmentStem | forgehub/__init__.py:144-145 | The name is the part of the last `/` segment before its first `.` |
| Cli.RepoNameOfUrl | forgehub/__init__.py:144-145 | `prefix/stem.ext` with a plain stem names the repository `stem` |
| Cli.RepoNameOfTestUrl | forgehub/__init__.py:144-145 | `git@github.com:joshmeranda/forgehub-test.git` names the repository `forgehub-test` |
| Cli.RepoNameFromUrl | forgehub/__init__.py:144-145 | The repository name holds neither `/` nor `.`, and is no longer than the URL |
| Cli.RepoTarget | forgehub/__init__.py:174-179 | An existing path is used as is with no upstream; otherwise the path is the URL's repository name and the URL is the upstream |
| Cli.End | forgehub/__init__.py:191-199 | Exactly the three driver errors become exit codes, each in 2..4; anything else propagates |
| Cli.MainRun | forgehub/__init__.py:148-199 | Forging happens iff a user is found and the driver opens. Pushing happens iff forging also passed and `--no-push` is not set, and only after forging. Exit 1 iff no user; exit 0 iff every step that runs passes; any other ending comes from a step that failed |
| Cli.ExitCodeNamesError | forgehub/__init__.py:191-199 | Exit code 2, 3 or 4 means a `DriverInitError`, `DriverForgeError` or `DriverPushError` was raised |
| Cli.PlacedLevelsInRange | forgehub/__init__.py:167-168 | Every placed level of valid input is a data level 0..4 |
| Cli.RenderedLevelsDrawable | forgehub/__init__.py:167 | Rendering any supported text gives only levels 0..4 |
| Cli.RenderedTextScales | forgehub/__init__.py:162-168 | Rendered text scaled by the 5-value table (events.py's `get_commits_pre_data_level`, corrected) keeps every date and maps each level to `start + level*step` |

## Left out

- Network and library calls are parameters or oracles: GitHub's `get_user`, `get_events`, `create_repo`, `get_repo().delete()` and `default_branch`; pygit2's `init_repository`, `clone_repository`, index and tree writes, `create_commit`, `remote.push` and `reference_is_valid_name`.
- The commit date. `git commit --amend --date=…` (forgehub/git.py:252-258, git.py:121-128) is modelled by giving each commit its day; the subprocess's own outcome is ignored by the source and not modelled.
- File writes to `repr.txt`, `shutil.rmtree` (recorded as a removed path) and failures of `rmtree` itself.
- `datetime.now()` is the parameter `now`. Time of day is dropped; every date in one render shares it.
- `str.splitlines` splits only on `\n`; the other line boundaries Python accepts are not modelled. Newline translation when reading the token file is not modelled either.
- Argument parsing, printing and `sys.exit` (`__parse_args`, `tools/generate.py` `parse_args`). Only the resulting exit code is modelled.
- `__get_user` (GitHub and pygit2 config lookups) is an input: found, none, or raised.
- `main` between the user lookup and the driver (forgehub/__init__.py:162-168): it calls `events.get_max_events_per_day(user)` and `events.get_data_level_boundaries` from `forgehub.events`, which is not part of this model, so those steps are not modelled. Of the names it calls, `render.scale_data_level_map` does not exist in forgehub/render.py, and forgehub/git.py exports `GitDriver`, not `Driver`. Cli.RenderedTextScales states what the rendering and scaling would compute with the root events.py table, corrected.
- Cli.MainRun: exceptions other than the three driver errors (from the steps above, or from `__exit__`) are not modelled beyond ending the run.
- main.py (script glue with a fixed user and repository) and event.py (a paging stub) are not part of this model; only the test URL from main.py is used, in Cli.RepoNameOfTestUrl.
- ForgeGit.GitDriver.ForgeCommits and LegacyGit.Driver.ForgeCommits: a missing identity in the pygit2 config is one failure kind. Whether pygit2 raises `KeyError` or `ValueError` for it is not distinguished; the older driver (git.py:83-91) re-raises only a `ValueError`, and a `KeyError` would escape it unchanged.
- ForgeGit.GitDriver.Push and LegacyGit.Driver.Push: a transport failure pushes nothing; partial pushes are not modelled. Push callbacks are not modelled.
- The `forgehub.events` module (`DataLevelBoundaries`) is not part of this model; boundaries are a `seq<int>`.
- The `match` in `__str__` is the function `LevelChar` over the five levels.
- Calendar.Civil: a day number is any integer, while Python's `date` exists only for ordinals 1..3652059 (years 1..9999). The conversion is proved inverse to `toordinal()` on all of them, beyond that range too; the `OverflowError` past year 9999 is not modelled.
- Calendar.IsoDateFields: the `YYYY-MM-DD` shape is stated only for years 1..9999, the years Python's `date` can hold. For other years the text is still digits and `-`.

## Findings

| source | as written | input that shows it | evidently intended | confidence | as-written member | corrected member |
|---|---|---|---|---|---|---|
| events.py:107-123 | `get_commits_pre_data_level` is annotated as returning 5 values, but `range(start, start + step*4, step)` yields only 4. Scaling a map by it then raises `IndexError` at any level-4 day, and glyphs are mostly level 4 | `max_per_day = 8`, `dilute = False`, giving `(0, 2, 4, 6)`, applied to the rendered map of `"A"`, which has level-4 days | `range(start, start + step*5, step)`: five boundaries, one per data level 0..4 | not executed | Events.FourEntryTableRejectsLevel4 | Events.BoundariesScaleEveryLevel |
