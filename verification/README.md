# Slang normaliser for Indonesian tweets, in Dafny

The service cleans Indonesian tweets and replaces slang ("alay") words by
their formal equivalents. This project models its text-processing core in
Dafny and proves properties of it:

- `cleanText`, module `Clean`. It lower-cases the text and strips its ends. Then come five
  regular-expression substitutions, each replacing what it matches with one
  space:
  - line breaks;
  - runs of characters other than ASCII letters and digits;
  - `user` or `rt`;
  - `x` followed by two lower-case letters or digits;
  - runs of spaces.
- `clean_text`, module `Slang`: clean the text, split it on single spaces, replace
  each piece that is a slang word by its formal word in a single pass, and
  join the pieces with single spaces. The slang dictionary is built from the
  table's rows as `dict(zip(slang, formal))` does, so for a repeated slang
  word the last row wins. The rows are a parameter of the model.
- The totals behind `createChart`, module `Chart`: eleven annotation columns are
  looked up by name and summed, and each sum becomes the bar of its header.
  A missing column fails. So does a column with no rows, because
  `pd.DataFrame([]).sum()[0]` raises.

Every `re.sub` call is an instance of one of two generic rewrites, in module
`Rewrite`:

- `ReplaceEach` handles fixed-width alternatives. It takes the leftmost match,
  and the first alternative wins at a given position. Scanning resumes after
  the match.
- `ReplaceRuns` handles a greedy `class+` run.

Each has a reference definition by decomposition. The text is cut into
pieces: a character that is copied, or a stretch that becomes one space.
For `ReplaceEach`, a stretch is the first alternative matching where the
scan stands, and a character is copied only where no alternative matches.
For `ReplaceRuns`, a stretch is a maximal run of the class. The result is
the pieces rendered in order. Such a cut always exists, and every such cut
renders to the rewrite's result. So the substitution stages' contracts fix
their results completely: what is kept, and where each space goes.

Module `Chars` holds the character classes and Python's whitespace set.
Module `CleanCases` works through concrete inputs.

Two behaviours of the code that a reader might not expect:

- The stop words `user` and `rt` are matched as substrings, not as whole
  words. So `"start"` becomes `"sta "`
  (`CleanCases.CleanTextMatchesInsideWords`).
- Cleaning is not idempotent. Stripping happens before the substitutions, so
  the result can start or end with a space. For example, `"@user"` cleans to
  `" "`, and `" "` cleans to `""` (`CleanCases.CleanTextNotIdempotent`).
  Cleaning a cleaned text again changes nothing exactly when that text
  neither starts nor ends with a space
  (`Clean.CleanTextIdempotentWhenTrimmed`).

## Model

| member | source | states |
|---|---|---|
| Clean.CleanText | app.py:78-86 | the result holds only digits, lower-case ASCII letters and spaces; it never holds two spaces in a row; `user`, `rt` and `x` followed by two letters or digits match nowhere in it |
| Clean.CleanTextRemovesPatterns | app.py:83-85 | for every position i, neither `"user"` nor `"rt"` starts at i, and no `x` at i is followed by two lower-case letters or digits |
| Clean.CleanTextFixesCleanText | app.py:78-86 | a text that is clean, has no double spaces, does not start or end with a space and holds none of the patterns is returned unchanged |
| Clean.CleanTextIdempotentWhenTrimmed | app.py:78-86 | cleaning a cleaned text again changes nothing exactly when the cleaned text neither starts nor ends with a space |
| Clean.CleanTextShortensUntrimmed | app.py:78-86 | a text that starts or ends with a space comes back shorter |
| Clean.StripShortens | app.py:80 | stripping a text that starts or ends with whitespace shortens it |
| Chars.ToLower | app.py:79 | an upper-case ASCII letter becomes the lower-case letter at the same alphabet offset; every other character is kept; no upper-case letter results |
| Clean.Lower | app.py:79 | same length, no upper-case ASCII letter is left, each upper-case letter becomes the lower-case letter at the same alphabet offset, other characters are kept, and a text without upper-case letters is unchanged |
| Chars.IsWhitespace | app.py:80 | holds exactly for the characters Python's `str.isspace` accepts, which `strip()` removes |
| Clean.Strip | app.py:80 | the result is a slice of the input with only whitespace cut from either side, and its first and last characters are not whitespace |
| Clean.JoinLines | app.py:81 | same length, each line break becomes a space, every other character is kept, and no line break is left |
| Clean.KeepAlnum | app.py:82 | the text cut into maximal runs of characters other than ASCII letters and digits, and the characters between them, renders to the result with one space in place of each run; the letters and digits are kept in order, no two spaces are adjacent, the result is no longer, and a text whose only such characters are single spaces is unchanged |
| Clean.DropUserRt | app.py:83 | the text cut by a left-to-right scan into first matches of `user` or `rt` and characters where neither matches renders to the result with one space per match; afterwards neither matches anywhere; clean text stays clean; a text with neither is unchanged |
| Clean.DropXCodes | app.py:84 | the text cut by a left-to-right scan into matches of `x[a-z0-9]{2}` and other characters renders to the result with one space per match; afterwards no such code is left; it does not rebuild `user` or `rt`; a text without such codes is unchanged |
| Clean.SqueezeSpaces | app.py:85 | the text cut into maximal runs of spaces and the characters between them renders to the result with one space per run; no two spaces are adjacent afterwards, no removed pattern is rebuilt, and a text without double spaces is unchanged |
| Rewrite.ReplaceEach | app.py:81-84 | `re.sub` of fixed-width alternatives by one space; its contract only bounds the length, and `ReplaceEachByPieces` with the lemmas below characterise the result |
| Rewrite.ReplaceRuns | app.py:82-85 | `re.sub` of `class+` by one space; its contract only bounds the length, and `ReplaceRunsByPieces` with the lemmas below characterise the result |
| Rewrite.ReplaceEachByPieces | app.py:81-84 | some cut of the text, scanning left to right into first-alternative matches and characters where nothing matches, renders to the substitution's result, and so does every such cut |
| Rewrite.EachScanRenders | app.py:81-84 | every left-to-right cut into first-alternative matches and unmatched characters renders, one space per match, to the substitution's result |
| Rewrite.EachPieces | app.py:81-84 | every text has a left-to-right cut into first-alternative matches and unmatched characters |
| Rewrite.ReplaceRunsByPieces | app.py:82-85 | some cut of the text into maximal runs of the class and the characters outside it renders to the substitution's result, and so does every such cut |
| Rewrite.RunScanRenders | app.py:82-85 | every cut into maximal runs of the class and the characters outside it renders, one space per run, to the substitution's result |
| Rewrite.RunPieces | app.py:82-85 | every text has a cut into maximal runs of the class and the characters outside it |
| Rewrite.ReplaceEachRemovesAll | app.py:81-84 | after a substitution of space-free alternatives, none of the alternatives matches anywhere in the result |
| Rewrite.ReplaceEachIdentity | app.py:81-84 | a text in which no alternative matches is left unchanged |
| Rewrite.ReplaceEachKeepsFree | app.py:81-84 | replacing matches by spaces cannot create a new match of a space-free pattern |
| Rewrite.ReplaceRunsKeepsContent | app.py:82-85 | replacing runs by spaces keeps, in order, every character outside the replaced class |
| Rewrite.ReplaceRunsNoDoubleSpace | app.py:82-85 | when the class contains the space, no two spaces are adjacent after replacing runs |
| Rewrite.ReplaceRunsIdentity | app.py:82-85 | a text whose replaced characters are single spaces is unchanged |
| CleanCases.CleanTextOfEmpty | app.py:78-86 | the empty text cleans to the empty text |
| CleanCases.CleanTextOfMention | app.py:82-85 | `"@user"` cleans to a single space |
| CleanCases.CleanTextMatchesInsideWords | app.py:83 | `"start"` cleans to `"sta "`: `rt` is removed from inside a word |
| CleanCases.KeepAlnumPlacesSpace | app.py:82 | `"a@b"` becomes `"a b"`: the run between the letters becomes one space in its place |
| CleanCases.SqueezeSpacesKeepsOneSpace | app.py:85 | `"a  b"` becomes `"a b"`: two spaces between letters shrink to one, in their place |
| CleanCases.DropUserRtKeepsRest | app.py:83 | `"rt ab"` becomes `"  ab"`: `rt` becomes one space and the rest, its space included, is kept |
| CleanCases.CleanTextNotIdempotent | app.py:78-86 | cleaning `"@user"` twice differs from cleaning it once |
| Slang.Split | app.py:95 | `split(' ')` yields at least one piece and no piece holds a space; `JoinSplit` and `SplitJoin` tie it to `Join` |
| Slang.Join | app.py:99 | `' '.join`: no contract of its own; `JoinSplit` and `SplitJoin` show it inverts `Split` |
| Slang.Normalize | app.py:94-99 | split, translate and join: no contract of its own; `NormalizeUnknownWords`, `NormalizePieces` and `NormalizeRowsPieces` describe it |
| Slang.NormalizeText | app.py:88-99 | `clean_text`: with an empty table the result is `cleanText`'s; when no formal word holds a space, the pieces of the result are the pieces of the cleaned text, each slang word of the table replaced by its dictionary value and every other piece kept |
| Slang.JoinSplit | app.py:95-99 | joining the pieces of `split(' ')` with single spaces gives the text back |
| Slang.SplitJoin | app.py:95-99 | splitting the join of one or more space-free pieces gives the pieces back |
| Slang.Dictionary | app.py:56 | the keys are exactly the slang words of the rows, and each maps to the formal word of the last row holding it |
| Slang.Translate | app.py:95-98 | one word per piece, in order: a key is replaced by its value, any other piece is kept |
| Slang.DictionaryValues | app.py:56 | every entry of the dictionary is one of the table's rows |
| Slang.LastRowExists | app.py:56 | every slang word of the table has a last row holding it, whose formal word the dictionary keeps |
| Slang.NormalizeUnknownWords | app.py:94-99 | when no piece of the text is a key, splitting, translating and joining gives the text back; in particular with an empty dictionary |
| Slang.NormalizePieces | app.py:94-99 | when no value holds a space, the pieces of the result are the pieces of the text, each replaced by its value when it is a key |
| Slang.SpaceFreeValues | app.py:56 | when no formal word of the table holds a space, no value of the dictionary does |
| Slang.NormalizeRowsPieces | app.py:88-99 | with formal words free of spaces, the pieces of the result are the pieces of the text, each slang word of the table replaced by its dictionary value and every other piece kept |
| Slang.TranslateOnce | app.py:95-98 | a replacement is not looked up again: with rows (w, v) and (v, u), the word w becomes v, not u |
| Slang.NormalizeWithoutDictionary | app.py:88-99 | with an empty table, `clean_text` equals `cleanText` |
| Slang.NormalizeSinglePass | app.py:88-99 | through `clean_text`: a clean word w with rows (w, v) and (v, u) becomes v |
| Chart.Sum | app.py:109-139 | `.sum()` of a column: a column of non-negative values sums to a non-negative total; `SumAppend`, `SumOfConstant` and `SumOfFlags` describe it further |
| Chart.CreateChart | app.py:106-142 | eleven bars, one per header in order, each carrying the sum of the matching annotation column, exactly when every column exists and has rows; otherwise the failure of the first column, in order, that is missing or empty |
| Chart.ColumnTotals | app.py:106-139 | totals every column when all exist and are non-empty; otherwise fails with the first column, in order, that is missing or empty |
| Chart.Bars | app.py:106-142 | one bar per header, carrying the total of the matching column; otherwise the failure of the first column that cannot be totalled |
| Chart.BarsOfRows | app.py:106-142 | for a frame read from rows, each header gets the sum of its column of the rows; with no rows at all, the first column fails as empty |
| Chart.ChartOfRows | app.py:106-142 | the same for the eleven annotation columns; with no rows, `Abusive` fails as empty |
| Chart.BarsOfConcatenatedRows | app.py:106-142 | the bars of two files read one after the other are the sums of their separate bars |
| Chart.BarsOfFlags | app.py:106-142 | with 0/1 flags, each bar counts the rows flagged 1, which is at most the number of rows |
| Chart.SumAppend | app.py:109-139 | the sum of a concatenation is the sum of the sums |
| Chart.SumOfConstant | app.py:109-139 | a column holding the same value in every row sums to that value times the number of rows |
| Chart.SumOfFlags | app.py:109-139 | a column of 0/1 flags sums to the number of 1s, between 0 and the number of rows |
| Chart.BarsOfUniformColumn | app.py:106-142 | a column holding v in every row gives its bar v times the number of rows: 0 for all zeros, the number of rows for all ones |

## Left out

- The Flask routes, request parsing, JSON responses and the Swagger set-up are not modelled. They are I/O.
- The SQLite connection and query are not modelled. `clean_text` receives the dictionary's rows as a parameter instead.
- Encoding detection with `chardet`, `read_csv` parsing and saving the uploaded file are left out. They are I/O and foreign code. A frame is given as a map from column names to integer columns, or as rows together with a frame read from them.
- Drawing the chart with matplotlib, saving `chart.png` and base64 encoding are left out. These are graphics and I/O; the model returns the bars.
- The shared file names `data.csv` and `chart.png` (lines 64 and 145) can race between concurrent requests. Concurrency is not modelled.
- The upload route's `'\n'.join` of the cleaned tweets (lines 67-72) is not modelled. It is a plain join around `clean_text`.
- Clean.Lower: only ASCII letters are lower-cased, and the model keeps the input's length. Python's `str.lower` also maps other Unicode letters. Almost all of them stay non-ASCII and become spaces at line 82 either way. Two exceptions differ from the model: the Kelvin sign U+212A becomes `k`, and U+0130 becomes `i` followed by a combining dot. The model turns both into a space instead of keeping the letter.
- Chart.Bars: columns hold integers. NaN values, floats and booleans, and pandas' handling of them, are not modelled.
- Chart.SumAppend: column values and sums are unbounded integers. pandas sums an integer column as 64-bit integers, which wrap around on overflow. The model does not wrap, so `SumAppend`, `SumOfConstant`, `BarsOfConcatenatedRows` and `BarsOfUniformColumn` hold for the model but hold for the code only while the sums stay within 64 bits.
