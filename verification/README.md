# Chess player analyzer — a Dafny model of its aggregation core

The analyzer takes a chess.com username and fetches the player's game archives.
In `script.js`, `analyzeGames` folds the games into a few summaries:

- the subject's colour counters `whiteWins`, `blackWins` and `draws`;
- a histogram of games per time class;
- per ECO opening code, the play count and the games won by White, won by Black and drawn.

The page then renders these summaries:

- the 20 most played openings as a table of rates;
- the 10 most played as a win-rate chart;
- one stat card per rating category, with counts shown with thousands separators and a win percentage;
- the profile's country code.

This project models that logic as pure Dafny functions over immutable datatypes and proves what the page relies on.

- `Wrappers`: the `Option` type and JavaScript's `x || fallback` for a possibly absent or empty string.
- `Text`: ASCII `toLowerCase`/`toUpperCase`, the stat-label rewrite (`chess_` prefix removed, `_` shown as a space) and the country extraction (last `/` segment, upper-cased).
- `Assoc`: a JavaScript object used as a map, modelled as an insertion-ordered association list. Writing a new key appends it. Writing an existing key updates it in place. So `Object.keys`/`Object.entries` list keys in first-seen order.
- `Games`: one archived game as chess.js exposes it: the PGN (may be absent), the `time_class`, and the header's `Result`, `White`, `Black` and `ECO`.
- `Analysis`: one iteration of the `analyzeGames` loop (`Step`), the loop as a fold, and the method `AnalyzeGames` with its loop invariant. It also gives an independent reference: a `Query` names what a game may count towards, and `Count` counts the matching games. `FoldCounts` proves that every counter, histogram bucket and opening tally equals its `Count`.
- `Ranking`: the stable sort by play count (most played first; ties keep first-seen order), the cut to 20 or 10, and the rates of a row.
- `Numbers`: `numberWithCommas` and the percentage of `calcWinPercent` and the table rates.
- `Stats`: the stat cards of `displayStats`.

Some behaviour of `analyzeGames` worth knowing:

- A result other than `"1-0"`, `"0-1"` and `"1/2-1/2"` increments no result counter. It still counts towards the play count and the time histogram. It is not counted as a draw.
- The subject counters count decisive games by the colour the subject played, not wins. A `"1-0"` game the subject lost as Black raises `blackWins`.
- When both header names match the subject, `"1-0"` goes to `whiteWins` and `"0-1"` to `blackWins`, because the two branches try the colours in opposite order.
- The subject's `draws` counts every drawn game, whether or not the subject played in it.
- Per opening, the code records games won by White and games won by Black, not the subject's wins and losses.
- The table's "win rate" is the share of decisive games, `(whiteWins + blackWins) / playCount`. Its "loss rate" is the share of games with no recognised result.

## Model

| member | source | states |
|---|---|---|
| Analysis.AnalyzeGames | script.js:154-199 | the loop returns the fold of all games; each subject counter and each time-class bucket equals the number of games counting towards it |
| Analysis.Step | script.js:164-195 | a game without a PGN changes nothing; otherwise each counter rises by one exactly when the game counts towards it, the game's opening gets the game's result recorded, every other opening is unchanged, and keys keep first-seen order and stay distinct |
| Analysis.FoldCounts | script.js:154-199 | after the whole loop, `whiteWins`, `blackWins`, `draws`, every `timeFormatCounts[k]` and every `openingStats[eco]` field equal the number of games that count towards them |
| Analysis.Record | script.js:178-195 | one game adds one to `playCount` and at most one to the result counters: "1-0" only to `whiteWins`, "0-1" only to `blackWins`, "1/2-1/2" only to `draws`, any other result to none; it keeps `whiteWins + blackWins + draws <= playCount` |
| Analysis.SkippedGamesIgnored | script.js:164-165 | dropping every game whose PGN is absent or empty leaves the summary unchanged |
| Analysis.TotalsCountAnalysedGames | script.js:170-178 | the time histogram and the opening play counts each add up to the number of games with a PGN |
| Analysis.KeysInFirstSeenOrder | script.js:170-178 | the keys of `timeFormatCounts` and `openingStats` are the time classes and ECO codes in the order of their first appearance, each once |
| Analysis.OpeningsConsistent | script.js:175-195 | every opening tally has no more decided games than games played |
| Analysis.SubjectCountersBounded | script.js:181-194 | `whiteWins + blackWins + draws` never exceeds the number of games with a PGN |
| Analysis.SubjectCountersCoverAll | script.js:181-194 | if every analysed game has a recognised result and the subject played in it, `whiteWins + blackWins + draws` equals the number of games with a PGN |
| Analysis.RecognisedResultsLeaveNoResidue | script.js:184-195 | if every analysed game has one of the three result strings, every opening's decided games equal its play count |
| Analysis.CreditByColour | script.js:181-191 | when the two players' names differ, a game counts towards `whiteWins` exactly when it is decisive and the subject is White, and towards `blackWins` exactly when it is decisive and the subject is Black, whichever side won |
| Analysis.LossAsBlackCounted | script.js:184-186 | a "1-0" game the subject played as Black adds one to `blackWins` and nothing to `whiteWins` |
| Analysis.SubjectCaseInsensitive | script.js:156 | two usernames equal up to case give the same summary |
| Analysis.PlayerCaseInsensitive | script.js:168-169 | writing either header name in another case gives the same summary |
| Analysis.ThreeGameExample | script.js:154-199 | a win as White and a win as Black in one opening and a draw in another give one game per subject counter, (2, 1, 1, 0) for the first opening and (1, 0, 0, 1) for the second |
| Games.TimeClassOf | script.js:170 | an absent or empty `time_class` is counted as "unknown", any other is counted as given |
| Games.EcoOf | script.js:174 | an absent or empty ECO tag is counted as "Unknown", any other is counted as given |
| Assoc.Put | script.js:175-178 | writing a key stores the value under it, leaves every other key's value alone, appends the key only if it is new, and keeps keys distinct |
| Assoc.Bump | script.js:171 | `m[k] = (m[k] \|\| 0) + 1` raises `k`'s count by one, leaves every other count alone, raises the total by one and keeps first-seen key order |
| Assoc.FirstSeen | script.js:267 | the keys in first-appearance order hold the same elements as the input, each once, and a key listed earlier first appears earlier in the input |
| Ranking.SortByPlays | script.js:205-206 | the sorted openings are ordered most played first, are a permutation of the input, and within each play count keep their input order |
| Ranking.StableSortIsUnique | script.js:205-206 | any two orderings that are most-played-first and keep each play count's input order are equal, so the sort's result is determined |
| Ranking.TopOpenings | script.js:205-207 | the first `n` of the sorted openings: `min(n, size)` of them, most played first, all from the table, none left out more played than one kept, and ties kept in first-seen order |
| Ranking.RowOf | script.js:208-220 | the play rate is the opening's share of all plays; the win rate is the share of its games won by either colour; the loss rate is the share with no recognised result (`playCount - whiteWins - blackWins - draws`); the draw, White-win and Black-win rates are the shares of those results. All rates are 0 for an unplayed opening, and otherwise win, loss and draw rates add up to 100. For a consistent tally within the total, every rate lies in [0, 100] |
| Ranking.LossNumeratorNonNegative | script.js:213-214 | for any list of games, the loss-rate numerator `playCount - whiteWins - blackWins - draws` of every opening the analysis produces is non-negative |
| Ranking.OpeningTable | script.js:201-220 | `min(20, size)` rows; row `i` is the row of the `i`-th most played opening against the total of all play counts; when the tallies are consistent every rate lies in [0, 100] |
| Ranking.OpeningWinRates | script.js:283-290 | `min(10, size)` bars; bar `i` is the `i`-th most played opening with the share of its games won by either colour (0 if unplayed); each lies in [0, 100] when the tallies are consistent |
| Ranking.AnalysisRendersInRange | script.js:154-220 | for any list of games, every rate of the rendered opening table and chart lies in [0, 100] |
| Numbers.Percent | script.js:115-118 | a zero total gives 0; otherwise the result times the total is the part times 100, and a part within the total gives a value in [0, 100] |
| Numbers.NumberWithCommas | script.js:111-113 | deleting the commas gives the plain decimal; the first group has 1 to 3 digits and each later group exactly 3; numbers below 1000 have no comma |
| Numbers.InsertCommasIsGrouping | script.js:112 | the regex rewrite, a comma before each digit with a positive multiple of three digits after it, is the same as joining the three-digit groups with commas |
| Numbers.NatToDecimal | script.js:112 | `toString` of a natural is a non-empty digit string without a leading zero whose value is the number |
| Text.StatLabel | script.js:138 | the label has no underscore and is the key shortened by "chess_" exactly when the key starts with it |
| Text.StatLabelShowsKey | script.js:138 | each label character is the matching key character, with `_` shown as a space |
| Text.LastSegment | script.js:124 | the result is the suffix after the last '/', or the whole string if it has none |
| Text.CountryText | script.js:124 | an absent or empty country shows "N/A"; otherwise the upper-cased last URL segment, which contains no '/' |
| Stats.CardOf | script.js:132-146 | a card's heading is the stat label; each count is shown by `numberWithCommas`, so deleting the commas gives its decimal and the digits are grouped in threes; the win rate is the wins' share of all recorded games and lies in [0, 100] |
| Stats.CardWinRate | script.js:115-118 | a category without games has win rate 0, and otherwise wins over games times 100 |
| Stats.Recorded | script.js:131-132 | a category is listed, with its record, exactly when the stats object holds it with a record |
| Stats.RecordedConcat | script.js:131-132 | the records of two consecutive parts of the stats object are those of the whole, so categories keep the object's order |
| Stats.StatCards | script.js:129-150 | one card per category with a record, in the stats object's order, each the category's card: its label, its counts with separators and its win rate in [0, 100] |

## Left out

- Fetching the profile, stats and archives and paging through archives (script.js:78-109) is network I/O. The model starts from the list of games.
- DOM updates, the theme toggle and localStorage are presentation. So are the `innerHTML` templates of the cards and rows.
- Chart.js construction and destruction, the colour pie chart and the time-format bar chart pass data straight through. Their data are the summary's fields.
- The submit handler's loading and error flow is asynchronous orchestration.
- chess.js's `load_pgn` and `header` parse the PGN in a foreign library. A game arrives here with its header already read. A failed `load_pgn` that leaves the previous game's header in place is not modelled.
- `White` and `Black` are required strings. The code calls `toLowerCase()` on them before its `|| ''` fallback, so a missing name would throw. That case is not modelled.
- `toFixed(1)` rounds an IEEE double to one decimal. Rates here are exact reals. The chart's `+winRate.toFixed(1)` is modelled as the exact rate.
- `toLowerCase`/`toUpperCase` are modelled on ASCII letters only. Other characters pass unchanged.
- Object keys that look like array indices would be listed before the others by JavaScript. The model keeps every key in insertion order.
- Keys naming inherited `Object.prototype` properties ("constructor", "toString", "__proto__", ...) are not modelled. On a fresh `{}` the code reads such a key as already present. An ECO of "constructor" would then get no tally and be missing from the table and from `totalPlays`. A `time_class` of "__proto__" would get no bucket. `Assoc.Get` answers None for every key not yet written, so the model gives these keys an entry. Chess.com time classes and ECO codes are never such names.
- Numbers at or above 10^21 are written by `toString` in exponent form. `NumberWithCommas` handles naturals in plain decimal only.
- Assoc.Bump: counts are unbounded naturals, not doubles. A count large enough to lose precision in a double is not modelled.
