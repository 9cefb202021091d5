# codestats-box in Dafny

This project models the deterministic core of codestats-box. The program reads
a user's Code::Stats statistics and publishes them as a fixed-width text card
in a GitHub gist. The model covers four parts of that program:

- the level formula and the XP number renderings (`utils.py`);
- the value objects built from the API payload, and the
  `title :::: value` line layout (`models.py`);
- the `GistFormatter`. It picks, sorts and truncates the languages for each
  display mode, substitutes the "no recent activity" block, renders each value
  and joins the lines (`formatter.py`);
- the gist update decision (`gist.py`). It is modelled as a pure step over an
  abstract gist, which is a sequence of `(file name, content)` pairs.

Modules, one per concern:

| file | module | models |
|---|---|---|
| `wrappers.dfy` | `Wrappers` | `Option` for missing payload fields, `Result` for failures |
| `levels.dfy` | `Levels` | `calculate_level` as an exact integer function |
| `decimal.dfy` | `Decimal` | `str(n)` and `format(n, ",")` digits, thousands grouping, and a parser |
| `text.dfy` | `Text` | right-justification, leading-space stripping, `"\n".join` and `split("\n")` |
| `xpformat.dfy` | `XpFormat` | `format_xp_only` and `format_xp_value`, with parsers that read them back |
| `models.dfy` | `Models` | `LanguageStats`, `UserStats`, `FormattedLine` and their construction and layout |
| `sorting.dfy` | `Sorting` | filtering, stable descending sort, top-N truncation |
| `formatter.dfy` | `Formatter` | `StatsType`, titles, the placeholder block, line selection and content |
| `gist.dfy` | `Gist` | `update_gist` |

Decisions the model makes:

- **Level.** Python computes `floor(0.025 * sqrt(xp))` in floating point. The
  model uses the exact value instead: for `xp >= 0` the level is the largest
  `L` with `1600 * L * L <= xp`. It is computed as `ISqrt(xp) / 40`.
- **Integers.** Integers are unbounded, as Python's are in the formatting
  code. Negative numbers are rendered with a leading `-`, as Python does. No
  formatting function needs a non-negativity precondition. The one place where
  Python is not unbounded is `calculate_level`, which goes through a float; see
  "Left out".
- **Payload.** The payload is a record of optional fields. `languages` is an
  ordered sequence of `(name, xps?, new_xps?)` entries, which mirrors dict
  iteration order.
- **Sorting.** Python's `sorted(..., reverse=True)` is stable. It is modelled
  by an insertion sort. `Sorting.SortDescIsTheStableSort` proves that every
  stable descending arrangement equals the insertion sort's output, so any
  stable sort gives the same result.
- **Strings.** Strings are `seq<char>`, and each emoji is its code points. The
  title emoji is four code points long, so lengths match Python's `len`.
- **Display modes.** `StatsType` values are `LevelXp`, `RecentXp` and `Xp`.
  The language limit is a `nat`. The settings enforce
  `1 <= top_languages_count <= 50` and `40 <= max_line_length <= 100`, but
  `FormatContent` needs neither bound.
- **GitHub calls.** The two calls become a `Remote(fetchOk, editOk)`
  parameter. A failed fetch, an empty gist and a failed edit all produce the
  single error kind `GitHubApiError`, with the cause attached. `writes`
  counts edit requests, which shows that there is no retry.

## Model

| member | source | states |
|---|---|---|
| `Levels.ISqrt` | src/codestats_box/utils.py:19 | the integer square root: `r*r <= n < (r+1)*(r+1)` |
| `Levels.Level` | src/codestats_box/utils.py:17-19 | negative xp gives level 0; otherwise `1600*L*L <= xp < 1600*(L+1)*(L+1)`, i.e. `floor(sqrt(xp)/40)` |
| `Levels.LevelIsLargest` | src/codestats_box/utils.py:9-19 | for xp >= 0, `k <= Level(xp)` exactly when `1600*k*k <= xp`: the level is the largest such k |
| `Levels.LevelMonotone` | src/codestats_box/utils.py:17-19 | the level never decreases as xp grows, across the negative cut-off too |
| `Levels.LevelAnchors` | src/codestats_box/utils.py:9-19 | level 0 at 0 xp, level 25 at 1,000,000 xp, level 0 for every negative xp |
| `Decimal.Digits` | src/codestats_box/utils.py:33 | the decimal digits of n: non-empty, all digits, no leading zero unless n is 0 |
| `Decimal.DigitsValue` | src/codestats_box/utils.py:33 | reading the digits of n back gives n |
| `Decimal.Group` | src/codestats_box/utils.py:33 | the `,` grouping of n >= 0 has a 1-3 digit first group and then groups of exactly 3 digits; deleting the commas gives the digits of n |
| `Decimal.Commas` | src/codestats_box/utils.py:33-36 | `format(x, ",")`: starts with `-` exactly when x < 0; after the sign it is well grouped, and deleting the commas gives the digits of abs(x) |
| `Decimal.IntStr` | src/codestats_box/utils.py:33 | `str(level)`: starts with `-` exactly when the level is negative; after the sign it is the digits of abs(level), with no leading zero, and reads as abs(level) |
| `Decimal.CommasParses` | src/codestats_box/utils.py:33 | the comma-grouped xp, including a negative one, reads back as the same integer |
| `Decimal.IntStrParses` | src/codestats_box/utils.py:33 | the level as `str` reads back as the same integer |
| `Text.RightJustify` | src/codestats_box/utils.py:33 | right alignment pads to `max(width, len)` with spaces before the text and never truncates |
| `Text.Join` | src/codestats_box/formatter.py:53 | `"\n".join`: no lines give the empty text; otherwise the text begins with the first line |
| `Text.SplitJoin` | src/codestats_box/formatter.py:53 | `"\n".join` of one or more single-line pieces splits back into exactly those pieces |
| `XpFormat.FormatXpOnly` | src/codestats_box/utils.py:41-50 | the text is the grouped xp right-aligned to at least 9 characters, followed by `" XP"` |
| `XpFormat.XpOnlyRoundTrip` | src/codestats_box/utils.py:41-50 | the xp-only rendering reads back as exactly the xp |
| `XpFormat.XpBase` | src/codestats_box/utils.py:33 | "lvl ", the level right-aligned to 3 characters, " (", the grouped xp right-aligned to 9 characters, " XP)", with the exact length and position of each piece |
| `XpFormat.Suffix` | src/codestats_box/utils.py:35-36 | empty unless the recent xp is present and positive; otherwise " (+", the grouped recent xp right-aligned to 6 characters, and ")" |
| `XpFormat.FormatXpValue` | src/codestats_box/utils.py:22-38 | the text is the base followed by the suffix; it equals the base exactly when no positive recent xp is given |
| `XpFormat.XpValueRoundTrip` | src/codestats_box/utils.py:31-38 | the level/xp rendering reads back as the level, the xp and the recent xp (0 when absent or not positive) |
| `XpFormat.XpValueNoNewline` | src/codestats_box/utils.py:33-36 | the level/xp rendering is a single line |
| `Models.LanguageFromEntry` | src/codestats_box/models.py:16-30 | missing `xps` / `new_xps` become 0; the name is kept; the level is derived from xp and never read from the payload |
| `Models.UserFromPayload` | src/codestats_box/models.py:43-64 | missing totals become 0; the level is derived from the total; one language per payload entry, in payload order; a missing or empty mapping gives no languages |
| `Models.FormatLine` | src/codestats_box/models.py:74-78 | the line starts with the title and ends with the value; one space each side of a separator run of length `max(width-len(title)-len(value)-2, 1)`; total length `max(width, len(title)+len(value)+3)` |
| `Sorting.Filter` | src/codestats_box/formatter.py:106 | keeps exactly the elements that pass the test, with their multiplicities, in their input order (a subsequence of the input) |
| `Sorting.SortDesc` | src/codestats_box/formatter.py:107-109 | the result is a permutation of the input ordered by key from highest to lowest |
| `Sorting.SortDescStable` | src/codestats_box/formatter.py:107-109 | the sort is stable: for every key, the elements with that key keep their input order |
| `Sorting.SortDescIsTheStableSort` | src/codestats_box/formatter.py:116-118 | every stable descending arrangement of the input equals the sort's result |
| `Sorting.Take` | src/codestats_box/formatter.py:107-118 | `[:top_count]`: a prefix of the sequence, of length `min(n, len)` |
| `Sorting.TakeKeepsTop` | src/codestats_box/formatter.py:109 | after truncating a descending sequence, nothing cut off ranks above anything kept |
| `Formatter.Title` | src/codestats_box/formatter.py:11-38 | every title begins with the emoji and "My Code::Stats XP ("; the recent-languages title is chosen exactly for the recent mode and the top-languages title exactly for the other two |
| `Formatter.Eligible` | src/codestats_box/formatter.py:104-106 | in the recent mode, exactly the languages with positive recent xp, with their multiplicities and in payload order; in the other modes, all languages |
| `Formatter.RenderValue` | src/codestats_box/formatter.py:80-85 | the Xp mode uses `format_xp_only(xp)`, the LevelXp mode the base `format_xp_value(xp, level)` with no suffix, the RecentXp mode `format_xp_value(xp, level, new_xp)`; each value reads back as exactly its mode's numbers |
| `Formatter.TotalLine` | src/codestats_box/formatter.py:71-87 | the first line is titled "Total XP"; its value is the mode's rendering of the user's total xp, level and recent xp |
| `Formatter.LanguageLine` | src/codestats_box/formatter.py:125-141 | a language line is titled with the language name; its value is the mode's rendering of that language's own numbers |
| `Formatter.Selected` | src/codestats_box/formatter.py:104-118 | shows `min(top, eligible)` languages, drawn from the input without repeats beyond the input's, descending by the mode's key; in the recent mode only languages with recent xp |
| `Formatter.SelectedIsStableSortPrefix` | src/codestats_box/formatter.py:104-118 | the shown languages are the first `top` of any stable descending arrangement of the eligible ones |
| `Formatter.SelectedKeepsPayloadOrder` | src/codestats_box/formatter.py:107-118 | among languages with equal key, those shown are the first ones in payload order |
| `Formatter.SelectedAreTop` | src/codestats_box/formatter.py:107-118 | no eligible language that is left out ranks above a shown one |
| `Formatter.TopTwoExample` | src/codestats_box/formatter.py:116-118 | with 500, 1500 and 1000 xp and a limit of 2, the level/xp mode shows the 1500 and then the 1000 xp language |
| `Formatter.PlaceholderShape` | src/codestats_box/formatter.py:17-22 | the no-recent-activity block (`NoRecentActivity`) is four single-line messages, each with one emoji as its value |
| `Formatter.LanguageLines` | src/codestats_box/formatter.py:89-123 | the placeholder block replaces an empty recent selection; otherwise there is one line per shown language, in order |
| `Formatter.PlaceholderIffNoRecentActivity` | src/codestats_box/formatter.py:104-113 | with `top >= 1`, the recent mode shows the four placeholder lines exactly when no language has recent xp |
| `Formatter.FormattedLines` | src/codestats_box/formatter.py:55-69 | the first line is the total line; the language lines follow it |
| `Formatter.RenderLines` | src/codestats_box/formatter.py:50-53 | one row per line, each laid out by `FormattedLine.format` with `:` and the configured width |
| `Formatter.LineCount` | src/codestats_box/formatter.py:55-69 | the line count is 5 with the placeholder, and otherwise 1 plus `min(top, eligible languages)` |
| `Formatter.FormatContent` | src/codestats_box/formatter.py:40-53 | the content begins with "Total XP" and is at least `max_line_length` long |
| `Formatter.ContentLines` | src/codestats_box/formatter.py:40-53 | when no language name contains a newline, splitting the content at newlines gives exactly the rendered lines, each padded with `:` to the width, total line first |
| `Gist.UpdateGist` | src/codestats_box/gist.py:26-96 | a fetch failure or an empty gist fails without a write; an up-to-date first file gives False and no write; otherwise one edit is sent, the first file becomes (title, content) and True is returned if it succeeds; the other files never change; after any success the first file is (title, content) |
| `Gist.UpdateIdempotent` | src/codestats_box/gist.py:68-79 | when the second fetch succeeds, repeating a successful update returns False, sends no edit and leaves the gist unchanged |

## Left out

- The HTTP client (`api.py`) is not modelled: the transport, JSON decoding, the retry decorator and the mapping of errors to `CodeStatsAPIError`. The model starts from an already decoded payload.
- Configuration loading (`config.py`) is not modelled. Only `StatsType` and the two numeric bounds are used.
- The command line (`cli.py`) is not modelled: console output, logging, environment overrides and exit codes.
- Type validation of the payload is not modelled. Every numeric field is an `int`, and `DataValidationError` is never raised by the modelled code.
- Levels.Level: Python's floating-point `0.025 * math.sqrt(xp)` is replaced by exact integer arithmetic, so a double-rounding difference at very large xp is not reproduced.
- Levels.Level: for xp of 2**1024 or more, `math.sqrt` cannot convert xp to a float and raises `OverflowError`. `LanguageStats.from_api_response` and `UserStats.from_api_response` do not catch it, and the API client catches only `KeyError`, `ValueError` and `TypeError`. The model has no such error path and returns the exact level for every xp.
- Gist.UpdateGist: the GitHub rename semantics of `gist.edit` are abstracted. Renaming onto the name of another file, and any reordering of files, become an in-place replacement of the first entry. A failed edit is assumed to leave the gist unchanged.
- Gist.UpdateGist: the error messages and the logging calls are reduced to a `Cause` value.
- Emoji display width is not modelled. Lengths count code points, as Python's `len` does.
- Formatter.FormatContent: the language limit is a `nat`, so Python's slicing with a negative count is not modelled. Settings validation rules such a count out.
- Formatter.PlaceholderIffNoRecentActivity: assumes `top >= 1`, as the settings guarantee. With a limit of 0 the recent mode would show the placeholder even when there was recent activity. `Formatter.LineCount` has the same precondition for the same reason.
- Formatter.ContentLines: states the line split only when no language name contains a newline. A name with a newline makes Python's content split into more lines than were rendered, and the model makes no claim about that case.
