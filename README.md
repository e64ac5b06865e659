# Weather card generator: a verified model of its string and integer core

The repository produces an SVG "weather card" from a template. It has two
variants:

- `app.py` reads the weather.gov forecast. It turns the forecast's icon URL
  into a condition code and then into an emoji from a table with a
  clear-sky fallback.
- `build-svg.py` reads an AccuWeather forecast. It maps a numeric icon to an
  emoji through a table that has gaps and no fallback.

Both variants convert Fahrenheit to Celsius with `round((F - 32) * 5 / 9)`
and look up a day-bubble width for the weekday. They then fill six
`{name}` placeholders of the template with six successive `str.replace`
calls.

This project models that layer in Dafny:

- `results.dfy`: a `Result` datatype for the lookups that can fail.
- `text.dfy`: Python's `str.split` on one character, `sep.join`, the
  "cut at the first stop character" and "after the last separator"
  readings of `split(...)[0]` and `split(...)[-1]`, and `str.replace` with
  Python's semantics. Replacement runs left to right over non-overlapping
  occurrences, and an empty pattern matches at every position.
- `decimal.dfy`: `str(n)` for integers.
- `temperature.dfy`: the Celsius formula in exact integer arithmetic, next
  to Python's half-to-even `round` and the half-away-from-zero convention.
- `card.dfy`: the six placeholders, the values put in for them, and the
  replacement chain, both as a fold over the substitution pairs and written
  out step by step. It also holds what the chain guarantees and a
  counterexample to a plausible stronger guarantee.
- `app.dfy`: `get_weather_icon_code`, `get_weather_emoji`, the two tables of
  the `App` class, and `cli_cmd`'s substitution steps as a method that
  rebinds one local string six times.
- `build_svg.dfy`: the AccuWeather tables and the script's straight-line
  substitution steps as a method.

A failing dictionary lookup in the source raises `KeyError`. In the model
it is a `Failure` result, returned at the step where the source raises it.
In `app.py` this is an unknown weekday at line 177. In `build-svg.py` it is
an unknown icon at line 87, or an unknown weekday at line 90.

## Model

| member | source | states |
|---|---|---|
| App.IconCode | app.py:86-101 | the code `get_weather_icon_code` returns never holds `/`, `?` or `,`, whatever the URL |
| App.IconCodeFallback | app.py:92-101 | an empty URL or one without `/` yields the code `skc` |
| App.IconCodeFromLastSegment | app.py:95-100 | a URL with a `/` yields the text after the last `/` up to the first `?` or `,`; that code is a prefix of the last segment and holds no `/`, `?` or `,` |
| App.IconCodeOfTail | app.py:96-100 | whatever precedes the last `/`, the code depends only on the text after it, cut at the first `?` or `,` |
| App.IconCodeOfSegment | app.py:99 | a last segment made of a code, then `?` or `,`, then anything yields exactly that code |
| App.IconCodeExample | app.py:89-90 | the documented URL `.../icons/land/day/tsra,40?size=medium` yields `tsra` |
| App.WeatherEmoji | app.py:104-108 | a code in the table gets exactly its own emoji, a code missing from the table gets the clear-sky default, and the result is always one of the table's emoji; the lookup never fails |
| App.WeatherEmojiOfCode | app.py:104-108 | for every URL whose last segment is a code of the table, the emoji is that code's entry |
| App.WeatherEmojiNonAscii | app.py:37-72 | every emoji the lookup can give is non-empty and made only of non-ASCII characters |
| App.WeatherEmojiExample | app.py:89-90 | the documented thunderstorm URL is drawn as `⛈` |
| App.DayBubbleWidthsKeys | app.py:74-82 | the width table is defined exactly for the seven weekday names |
| App.CardFill | app.py:159-178 | the Celsius value is `str` of the rounded conversion, the emoji is one of the table's, and an inert time text makes every value inert |
| App.CliCmd | app.py:170-178 | a known day yields the rendered card and an unknown day fails with that day; a placeholder-free template comes back unchanged; with an inert time text no placeholder remains |
| Temperature.RoundHalfEven | app.py:141 | Python's `round` of the exact quotient: within half of the divisor, and even on a tie |
| Temperature.RoundHalfAway | app.py:141 | rounding half away from zero: within half of the divisor, a tie goes away from zero |
| Temperature.NearestUnique | app.py:141 | at most one integer lies strictly within half a step of a quotient |
| Temperature.Celsius | app.py:141 | the result is strictly within half a degree of `5 (F - 32) / 9`, so no tie ever arises |
| Temperature.CelsiusIsPythonRound | app.py:141 | the exact-integer formula equals Python's half-to-even `round((F - 32) * 5 / 9)` |
| Temperature.CelsiusRoundingModeIrrelevant | build-svg.py:79 | half-away-from-zero rounding gives the same Celsius value, so the rounding mode does not matter |
| Temperature.CelsiusMonotone | app.py:141 | a higher Fahrenheit value never gives a lower Celsius value |
| Temperature.CelsiusFixtures | build-svg.py:79 | 32→0, 68→20, -4→-20, 98→37, 33→1 and 50→10 |
| Decimal.IntToString | app.py:170-171 | `str(n)` is non-empty and starts with `-` exactly when `n` is negative |
| Decimal.NatToStringValue | app.py:170 | reading back the digits of `str(n)` gives `n` |
| Decimal.IntToStringShape | app.py:170-171 | `str(n)` is non-empty, starts with `-` exactly for negatives, has only digits after that, and those read back as `abs(n)` |
| Decimal.IntToStringInjective | app.py:170-171 | different integers print differently |
| Decimal.IntToStringChars | app.py:170-178 | `str(n)` holds only digits and `-` |
| Text.Split | app.py:96 | `split` on one character gives one piece more than the text has separators |
| Text.SplitJoin | app.py:96 | joining the parts of `split` with the separator gives the string back |
| Text.SplitPiecesFree | app.py:96 | no part of `split` holds the separator |
| Text.SplitCount | app.py:96-97 | `split` gives at least two parts exactly when the separator occurs |
| Text.SplitFirst | app.py:99 | `split(sep)[0]` is the text before the first separator |
| Text.SplitLast | app.py:99 | `split(sep)[-1]` is the text after the last separator |
| Text.BeforeFirst | app.py:99 | the cut is a prefix free of the stop characters and ends at the first stop character or at the end |
| Text.AfterLast | app.py:99 | the tail is a suffix free of the separator and starts after a separator or at the start |
| Text.AfterLastTail | app.py:99 | the text after the last `/` of `a + "/" + b`, with no `/` in `b`, is `b` |
| Text.BeforeFirstHead | app.py:99 | a cut at the first stop character of `a + [x] + b` is `a` |
| Text.BeforeFirstTwice | app.py:99 | cutting at the first `?` and then at the first `,` is cutting at the first of either |
| Text.Replace | app.py:170-178 | `replace` of a pattern by itself changes nothing, and a replacement of the pattern's length keeps the text's length |
| Text.ReplaceAbsent | app.py:170-178 | `replace` of a non-empty pattern that does not occur returns the text unchanged |
| Text.ReplaceAtMatch | app.py:170-178 | `replace` at a match puts in the replacement and goes on after the match |
| Text.ReplaceSkipFree | app.py:170-178 | `replace` copies a prefix that cannot start the pattern |
| Text.ReplaceRemoves | app.py:170-178 | after `replace` with an inert replacement, the pattern no longer occurs |
| Text.ReplaceCreatesNothing | app.py:170-178 | `replace` with a value inert for `q` creates no occurrence of `q` that was not already there |
| Card.Substitutions | app.py:170-178 | every pattern of the chain is a non-empty placeholder proper (`{`, a name without braces, `}`), no two steps replace the same placeholder, and step `k` puts in the value of placeholder `k` |
| Card.Render | build-svg.py:85-90 | a template with none of the six placeholders is rendered unchanged |
| Card.RenderSteps | build-svg.py:85-90 | rendering is exactly the six `replace` calls in the source's order |
| Card.RenderClears | build-svg.py:85-90 | with inert values, no placeholder occurs in the rendered card |
| Card.BraceFreeValuesCanLeaveAPlaceholder | app.py:173 | brace-free values do not suffice: `{{psTime}}` with the time text `degF` renders to a text holding `{degF}` |
| Card.RenderInPlace | app.py:170-178 | when the template's only braces belong to its placeholders and the values have no `{`, each placeholder becomes its own value in its own place and the rest of the text is kept |
| Card.FillFrom | app.py:170-178 | the remaining steps of the chain fill the remaining placeholders in place |
| Card.ApplyAll | build-svg.py:85-90 | a chain of replacements with non-empty patterns, none of which occurs, changes nothing |
| Card.ApplyAllClears | build-svg.py:85-90 | a chain of replacements with mutually inert values leaves none of its patterns |
| Card.DecimalInert | app.py:170-178 | `str(n)` can take no part in forming a placeholder |
| Card.NonAsciiInert | app.py:172 | a non-ASCII value such as an emoji is inert |
| Card.WeekdayInert | app.py:174 | each of the seven weekday names is inert |
| BuildSvg.EmojisDomain | build-svg.py:20-49 | the emoji table is defined exactly for icons 1–8, 11–26 and 29–32 |
| BuildSvg.EmojisFixtures | build-svg.py:21-48 | icons 1 and 2 give `☀️`, 30 gives `🥵`, 31 gives `🥶` and 32 gives `💨` |
| BuildSvg.EmojisGaps | build-svg.py:20-49 | icons 9, 10, 27, 28 and 33 are missing from the table |
| BuildSvg.EmojisNonAscii | build-svg.py:20-49 | every emoji of the table is made only of non-ASCII characters |
| BuildSvg.DayBubbleWidthsAgree | build-svg.py:51-59 | the width table equals the one of `app.py` and is defined exactly for the seven weekday names |
| BuildSvg.ChatFill | build-svg.py:79-90 | the Celsius value is `str` of the rounded conversion, the emoji is one of the table's, and an inert time text makes every value inert |
| BuildSvg.RenderChat | build-svg.py:85-90 | success exactly when both lookups succeed, an unknown icon fails before the day is looked up, an unknown day fails otherwise; on success the card is the rendered template, unchanged when it has no placeholder and free of placeholders with an inert time text |

## Inert values

A value `v` is *inert* for a placeholder `q` when three things hold:

- `v` holds neither the first character of `q` (`{`) nor its last (`}`);
- `v` is not itself a part of `q`;
- `v` is not empty.

An inert value can neither complete a placeholder from the text around the
one it replaces nor form one with a neighbouring value. With inert values,
each `replace` call removes its own placeholder and creates none.

Every value the source substitutes is inert:

- the decimals are digits and `-`;
- the emoji are outside ASCII;
- each weekday name has, for each placeholder, a character the placeholder
  lacks.

That leaves only the time text, which comes from a date library, as a
hypothesis.

## Left out

- HTTP requests, `raise_for_status` and JSON field access (app.py:119-144, build-svg.py:74-80) are network I/O. The forecast's Fahrenheit value and icon are parameters.
- Reading the template, writing the card, and resolving paths against `__file__` (app.py:163-185, build-svg.py:82-93) are filesystem I/O. The template is a parameter and the card is the result.
- The current time, `format("dddd")` and `diff_for_humans` (app.py:151-156, build-svg.py:62-67) come from a date library. `todayDay` and `psTime` are parameters.
- `round()` of the float AccuWeather temperature (build-svg.py:78) is floating point. `degF` is taken as an integer.
- Temperature.Celsius: models the exact rational `5 (F - 32) / 9`, not its double-precision evaluation. The two differ only when the double rounding error of the quotient reaches 1/18 of a degree, which first happens for |F| near 10^15.
- Settings, command-line parsing, `load_dotenv` and environment lookup (app.py:11-33, 204-205; build-svg.py:10-16) are configuration plumbing.
- The summary `app.py` prints on success, and its mapping of every exception to a message on standard error and `sys.exit(1)` (app.py:187-199), are process-level I/O. A failed lookup is a `Failure` result instead.
- `build-svg.py` prints nothing on success and never calls `sys.exit`. Its one handler prints a `RequestException` and lets the script end normally without writing a card (build-svg.py:95-96). The `KeyError` of `emojis[icon]` (line 87) or `dayBubbleWidths[todayDay]` (line 90) is not caught and ends the script with a traceback. The model returns a `Failure` result at that step and does not distinguish the two ways of ending.
- App.CliCmd: receives the first forecast period as a `Forecast` value. There is no `IndexError` for an empty period list, and no icon URL that is `None`, because the icon is a `string`.
- Card.RenderClears: needs each value to be inert rather than merely free of `{`. A value without braces can still complete a placeholder from the template text around it (`Card.BraceFreeValuesCanLeaveAPlaceholder`). For the cards the source substitutes, only `psTime` is not proved inert.
- App.CliCmd and BuildSvg.RenderChat: state "no placeholder remains" only under the hypothesis `Card.InertValue(psTime)`, for the same reason.
