# CV-to-job matcher: a Dafny model of the matching rules

The CV-to-job matcher is a small web tool. It takes uploaded job descriptions
and candidate CVs and asks a language model to score every CV against every
job. It then tabulates the scores, names the best-matching job for each CV,
and names the best candidate for each job. Everything around the pipeline is
user interface, PDF extraction or an HTTP call. This project models the pure
pipeline in between:

- **Document tables** (`Matcher.TextTable`, built on `OrderedDict`). Uploaded
  texts are stored in a Python `dict` keyed by file name. `OrderedDict` models
  a `dict` as a sequence of entries in insertion order. Assigning to a present
  key replaces its value in place; assigning to a new key appends it.
- **Score extraction** (`ScoreParse`). This models
  `re.search(r"Match Percentage:\s*(\d+)", reply)` followed by `int(...)`, with
  0 when there is no match. `\s` is Python's set of `str` whitespace
  characters. The search tries every position from the left. A position
  matches when the label is followed by optional whitespace and then at least
  one digit. The captured group is the maximal run of digits.
- **Best role per CV** (`Matcher.ScanBest`, `Matcher.MatchRow`). The loop
  starts from `best_score = -1` and `best_role = None`. It takes a job only on
  a strictly greater score. The row is a dict with the keys `CV`, then every
  job, then `Best Match`.
- **Percent formatting** (`Percent`). A score is written as `f"{x}%"`. It is
  read back with `rstrip('%')` and a numeric conversion.
- **Best candidate per job** (`Matcher.TopCandidates`, `ArgMax.FirstMax`). For
  each job, the column is read back as numbers and `idxmax` picks the first row
  holding the maximum. A column that does not convert takes the warning path:
  that job gets no summary row.

The language model is an input, `reply(i, j)`: the completion returned for the
i-th CV and the j-th job description. Documents are given as (file name,
extracted text) pairs. The end-to-end lemmas `Matcher.MatrixSpec` and
`Matcher.RunSpec` state the full run on any uploads and any replies.

The prompt asks the model for "a match percentage (0–100)"
(cv_role_matcher.py:53), but the code that reads the reply (lines 76-77)
neither clamps nor rejects: any digit run after the label becomes the score.
The model therefore imposes no upper bound on scores.

The files are `wrappers.dfy` (Option), `decimal.dfy` (digit strings,
`str(n)` and `int(s)`), `score_parse.dfy`, `percent.dfy`, `argmax.dfy`,
`ordered_dict.dfy` and `matcher.dfy` (the run).

## Model

| member | source | states |
|---|---|---|
| ScoreParse.SkipSpaces | cv_role_matcher.py:76 | `\s*` stops at the first non-whitespace character; every character it skips is whitespace |
| ScoreParse.DigitsEnd | cv_role_matcher.py:76 | `\d+` is greedy: every character up to the end is a digit, and the next character is not a digit (or the text ends) |
| ScoreParse.Captured | cv_role_matcher.py:76-77 | the captured group of a match is a non-empty digit string that starts right after the whitespace following the label and is followed by a non-digit or the end of the text (the maximal run `(\d+)` takes) |
| ScoreParse.Search | cv_role_matcher.py:76 | `re.search` returns the leftmost position where the label, optional whitespace and a digit occur; `None` means no position qualifies |
| ScoreParse.ParseScore | cv_role_matcher.py:76-77 | with no qualifying position the score is 0; otherwise it is the decimal value of the whole digit run captured at the leftmost qualifying position |
| ScoreParse.NoLabelScoresZero | cv_role_matcher.py:76-77 | a reply that never contains the label scores 0 |
| ScoreParse.ParseRequestedShape | cv_role_matcher.py:76-77 | a reply in the requested shape `Match Percentage: XX%...` scores exactly XX, for every non-negative XX (no clamping to 100) |
| ScoreParse.ParseExample | cv_role_matcher.py:76-77 | `"Match Percentage: 87%\nExplanation: good fit"` scores 87 |
| Decimal.ToDecimal | cv_role_matcher.py:93 | the decimal rendering of a score is a non-empty digit string without a superfluous leading zero |
| Decimal.ValueOfToDecimal | cv_role_matcher.py:93 | `int(str(n)) == n` for every non-negative n |
| Decimal.ToDecimalOfValue | cv_role_matcher.py:77 | `str(int(s)) == s` for every canonical digit string, so rendering and reading digits are mutually inverse |
| Percent.Format | cv_role_matcher.py:93 | `f"{x}%"` is the canonical decimal digits of x (no superfluous leading zero) followed by one `%` |
| Percent.ParseNumber | cv_role_matcher.py:100 | the conversion succeeds exactly on non-empty digit strings, and on a canonical one it gives the number whose rendering is that string |
| Percent.RStrip | cv_role_matcher.py:100 | `rstrip('%')` returns a prefix that does not end in `%`, and everything it removed is `%` |
| Percent.FormatRoundTrip | cv_role_matcher.py:93-100 | stripping the trailing `%` from `f"{x}%"` and converting gives back x |
| Percent.FormatInjective | cv_role_matcher.py:93 | distinct scores render as distinct cells |
| ArgMax.FirstMax | cv_role_matcher.py:100 | `idxmax` returns a position holding the maximum, with every earlier element strictly smaller |
| ArgMax.FirstMaxUnique | cv_role_matcher.py:100 | the first maximum is unique, so any two first-maximum selections agree |
| OrderedDict.Get | cv_role_matcher.py:104-105 | looking up a key gives a value exactly when the key is present |
| OrderedDict.Put | cv_role_matcher.py:31 | `d[k] = v` keeps the key order when k is present and appends k otherwise; afterwards k maps to v and every other key keeps its value |
| OrderedDict.PutAllFresh | cv_role_matcher.py:78 | assigning pairs whose keys are all new appends them in order, each holding its value, and leaves other keys alone |
| OrderedDict.FromPairsValues | cv_role_matcher.py:24-31 | a dict built by assigning pairs in order holds, under each key, the value of the last pair with that key; keys never assigned are absent |
| OrderedDict.FromPairsKeys | cv_role_matcher.py:24-31 | that dict holds each key once, exactly the keys assigned, ordered by their first assignment |
| Matcher.TextTableSpec | cv_role_matcher.py:24-42 | `TextTable`, the dict built by assigning `texts[f.name] = text` per upload, has one entry per distinct file name, ordered by first upload, holding the text of the last upload with that name |
| Matcher.ScanBestFrom | cv_role_matcher.py:80-82 | once the loop has seen a prefix with its first maximum, it ends on the first maximum of all scores |
| Matcher.BestRoleIsFirstMax | cv_role_matcher.py:48-84 | `BestRole` (the loop `ScanBest` started from -1 and `None`): `best_score` ends as the maximum score and `best_role` as the earliest job reaching it; with no jobs they stay -1 and `None` |
| Matcher.MatchRowSpec | cv_role_matcher.py:46-85 | `MatchRow`, a CV's row, has exactly the keys `CV`, every job in order, and `Best Match`, holding the CV name, each job's score, and the first job with the maximum score |
| Matcher.FormatColumnsAt | cv_role_matcher.py:91-93 | `FormatColumns`, formatting the job columns with `FormatCell`, keeps every row's keys, renders each job cell once as `f"{x}%"`, and leaves `CV` and `Best Match` unchanged |
| Matcher.MatrixSpec | cv_role_matcher.py:44-93 | `Matrix`, the formatted result table, has one row per distinct CV name, in CV order, with the keys `CV`, every job and `Best Match`; each job cell is the formatted score parsed from that pair's reply |
| Matcher.BestMatchNeverNone | cv_role_matcher.py:48-84 | when at least one job exists, every row's `Best Match` is a job name, never `None` |
| Matcher.ReadFormattedColumn | cv_role_matcher.py:100 | `ReadColumn`, applying `CellNumber` (`rstrip('%')` and conversion) to every cell: a column of formatted scores converts back to exactly those scores |
| Matcher.TopCandidatesInOrder | cv_role_matcher.py:96-106 | `TopCandidates`, the summary built from `TopFor` per job: when every job yields a summary row, the summary has one row per job, in job order |
| Matcher.TopCandidatesSpec | cv_role_matcher.py:97-106 | `TopCandidates` on a table of formatted scores: for each job the summary names the CV of the first row whose score is the column's maximum, with that row's formatted score |
| Matcher.ScoringExample | cv_role_matcher.py:80-84 | scores [[90, 10], [20, 80]] give best matches Job1 and Job2 and top candidates CV1 and CV2; a tie goes to the earlier job |
| Matcher.RunSpec | cv_role_matcher.py:20-110 | `Run`, the whole run: happens exactly when both upload lists are non-empty; the summary then has one row per job, naming the first CV that reaches the job's maximum score, with its formatted score |

## Left out

- The web interface is not modelled: the title, the inputs, the run button, the status messages, the tables and the CSV downloads (cv_role_matcher.py:8-21, 112-121). The run button's guard is kept as "both upload lists are non-empty".
- The API key and the client object are not modelled. A missing key stops the run at the same guard; `Matcher.Run` does not take a key.
- Text extraction is not modelled: PDF pages joined by newlines, the temporary file, and UTF-8 decoding (cv_role_matcher.py:26-30, 36-41). These are foreign library calls and file I/O. Each upload carries its extracted text.
- The prompt and the chat-completion request are not modelled (cv_role_matcher.py:52-75). This is a network call. Its reply is the input `reply(i, j)`, and the document texts are not needed beyond their names.
- Run-ending errors are not modelled. An exception from `client.chat.completions.create` (cv_role_matcher.py:65-73) ends the whole run. So does a reply whose content is `None` reaching `re.search` (lines 75-76). The model's `reply` always returns a string, so a modelled run never aborts.
- The warning message on the exception path is not modelled (cv_role_matcher.py:107-108). Only its effect is: the job gets no summary row. `Matcher.RunSpec` shows this path is never taken in a real run.
- pandas mechanics are reduced to a sequence of row dicts. A cell missing from a row reads as `Null` in `Matcher.Lookup`, and `FormatIn` leaves it alone. pandas would use NaN and format it as `nan%`. No row lacks a job column, because all rows have the same keys (`Matcher.MatrixSpec`).
- Matcher.TopCandidatesSpec: compares scores as exact integers. The source converts them with `astype(float)`, and two scores above 2^53 can round to the same float. `idxmax` could then prefer an earlier, smaller score. Scores that large are outside any sensible reply.
- Percent.ParseNumber: converts only non-empty ASCII digit strings. Python's `float` accepts more (signs, spaces, exponents, `inf`), but every job cell is `f"{x}%"` of a non-negative integer.
- ScoreParse.ParseScore: `\d` and `int()` are restricted to the ASCII digits `0`-`9`. Python also accepts other Unicode decimal digits there.
- ScoreParse.ParseScore: Python 3.11 and later raise `ValueError` in `int()` for a digit run longer than 4300 digits, which would abort the run. The model returns the number.
- `Matcher.PlainJobNames` requires that no job file is named exactly `CV` or `Best Match`. Such a name would overwrite the row's own key. The uploader accepts only `.txt` and `.pdf` files, so no job name can be either.
