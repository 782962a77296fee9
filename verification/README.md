# Student CSV ingestion, verified model

A Dafny model of the in-memory core of `books_scrapper.py`. The model covers three parts:

- `_parse_score` takes the first number out of a noisy grade value such as `"[9]"`, `"88%"` or
  `" 7.5 "`.
- `_split_multi` splits a grade cell on `;`, `,`, `|` and `/`. It strips every piece and drops
  the blank ones.
- `scrape_students_from_csv` does the following once the CSV rows have been read:
  - normalises headers and cells;
  - resolves the header synonyms;
  - parses ages leniently;
  - deduplicates students by (name or placeholder, email);
  - numbers the students 1..N in order of first appearance;
  - emits one grade per grade value, pointing at the new student number.

Modules:

- `Options`: the `Option` type.
- `Text`: the ASCII behaviour of the Python string helpers the code uses:
  - `str.strip()`, via a uniqueness characterisation;
  - `str.lower()`;
  - the regex classes `\s` and `\d`.
- `Numerals`: `int()` on stripped ASCII text, and its inverse `str()`.
- `ScoreParser`: the search with `[-+]?\d*\.?\d+`.
  - `MatchAt` is the outcome of the engine's backtracking at one index.
  - `SearchFrom` is the leftmost index where the engine matches.
  - Both are proved against `IsNumberToken`, an independent description of the regex language:
    the match is the leftmost number token, and the longest one at its index.
- `FieldSplitter`: `re.split(r'\s*[;,|/]\s*', ...)`, modelled as the engine runs it (leftmost
  separator match, resuming where it ends).
  - After stripping, it is proved equal to an independent reference, `Runs`: a split on the
    delimiter characters alone.
  - From that follow the piece properties and idempotence.
- `Ordered`: the key order of a Python dict filled by inserting keys. It is modelled as the
  first occurrences of a sequence (`Distinct`).
- `CsvIngest`: the row loop, as a fold `Collect` of `Step` over the rows, followed by the
  renumbering and remapping (`Renumber`).
  - `students_map` is an insertion-ordered dict. It is modelled as a key order plus a map.
- `IngestSpec`: an independent, row-by-row description of the output.
  - The key of every row (`Keys`).
  - The first age given for a key (`FirstAge`).
  - The (row, score) source of every grade (`Sources`).
  - The theorems that `Ingest` meets this description.
- `WorkedCases`: concrete inputs worked through the model.
  - `"[9]"`, `"88%"` and `" 7.5 "` are the examples the comment on `_parse_score` (line 11)
    names.
  - The others are chosen to show the regex's backtracking, a value without a number, signed
    and malformed ages, and a grade cell with mixed delimiters.

The placeholder for an unnamed row is `unknown_<k+1>`, where k is the number of distinct
students known when the row is read. A real name of that shape can therefore share a key with a
later unnamed row. This happens only when the earlier row is named `unknown_<k+1>` for exactly
that k and the two emails are equal. The source does this as written, and the model keeps it:

- `IngestSpec.PlaceholderCollision` exhibits the smallest case: a row named `unknown_2`, then an
  unnamed row, both with an empty email, give one student.
- `IngestSpec.UnnamedRowIsNew` proves that an unnamed row always starts a new student when no
  earlier name looks like a placeholder.

## Model

| member | source | states |
|---|---|---|
| ScoreParser.ParseScore | books_scrapper.py:5-18 | No score exactly when the value is missing or has no digit (so also for empty and whitespace-only values). A score is a number token that ends in a digit and is the first number of the stripped value. |
| ScoreParser.SearchFromMeaning | books_scrapper.py:12-14 | `re.search` finds a number token. No token starts before it, none at its index is longer, and it finds nothing exactly when no digit is left. |
| ScoreParser.MatchAtIsToken | books_scrapper.py:12 | Where the engine matches at an index, the text it takes is a member of `[-+]?\d*\.?\d+`. |
| ScoreParser.TokenWithinMatch | books_scrapper.py:12 | Any number token at an index lies within the engine's match there, so the greedy match is the longest token. |
| ScoreParser.FirstNumberUnique | books_scrapper.py:11-12 | "The first numeric substring" is well defined: two first numbers of a text coincide. |
| ScoreParser.SearchFromSkips | books_scrapper.py:12 | The engine matches at no index before the one the search reports, nor anywhere when it reports nothing. |
| FieldSplitter.SplitMulti | books_scrapper.py:20-24 | A missing or empty cell gives no pieces. Every piece is non-empty, has no whitespace at either end and holds no delimiter. |
| FieldSplitter.NextSeparatorSkips | books_scrapper.py:23 | The separator match `re.split` uses is the leftmost one: none starts before it. |
| FieldSplitter.SplitMultiIsStrippedRuns | books_scrapper.py:23-24 | The pieces are exactly the delimiter-free runs of the cell, in order, stripped, with the blank ones dropped. |
| FieldSplitter.SplitMultiSingle | books_scrapper.py:23-24 | A non-blank cell without delimiters gives the single stripped cell. |
| FieldSplitter.SplitMultiIdempotent | books_scrapper.py:23-24 | Splitting the pieces rejoined with `"; "` gives the same pieces back. |
| FieldSplitter.RunsAreDelimiterFree | books_scrapper.py:23 | The runs between delimiters hold no delimiter, and there is one run more than there are delimiters. |
| FieldSplitter.KeepNonBlankMeaning | books_scrapper.py:24 | Each piece kept is non-empty, stripped, and the strip of some piece of the split. |
| FieldSplitter.KeepNonBlankIsSubsequence | books_scrapper.py:24 | The kept pieces are the strips of the parts at strictly increasing indices, and every part whose strip is non-empty is among them: the comprehension keeps exactly the non-blank parts, in order. |
| FieldSplitter.KeepNonBlankKeeps | books_scrapper.py:24 | No non-blank part is dropped: its strip is among the kept pieces. |
| Text.StripBlank | books_scrapper.py:8-10 | `s.strip() == ''` exactly when `s` is all whitespace. |
| Text.StripUnique | books_scrapper.py:8 | The strip of a text is the only string with no whitespace at either end that sits in it between whitespace. |
| Text.Lower | books_scrapper.py:40 | `lower()` keeps the length, leaves no upper-case letter, maps each character on its own and leaves a text without upper-case letters unchanged. |
| Text.LowerStrip | books_scrapper.py:40 | Lower-casing and stripping commute, so `k.strip().lower()` equals `k.lower().strip()`. |
| Text.StripKeepsCharacters | books_scrapper.py:8-14 | Stripping adds no character and keeps every digit, so a value has a number exactly when its strip does. |
| Numerals.ParseInt | books_scrapper.py:50 | `int()` succeeds exactly on an optional sign followed by one or more ASCII digits, ignoring the interpreter's digit limit. The result's sign follows the text's sign. |
| Numerals.ParseIntString | books_scrapper.py:50 | `int(str(n)) == n` for every integer, ignoring the interpreter's digit limit. |
| Numerals.ParseIntSigned | books_scrapper.py:50 | `int("+" + u) == int(u)` and `int("-" + u) == -int(u)` for every digit string u. |
| Numerals.ParseIntLeadingZero | books_scrapper.py:50 | A leading zero does not change the value `int()` reads. |
| CsvIngest.NormPairs | books_scrapper.py:40 | One pair per item, in order. Pair j holds the normalised header of item j, which is stripped and free of upper-case letters, and the strip of its cell; a missing cell becomes `''`. |
| CsvIngest.NormHeaderMeaning | books_scrapper.py:40-45 | Surrounding whitespace and letter case do not matter to a header, and a header already stripped and lower-case is kept as it is, so `' Name '` is looked up as `'name'`. |
| CsvIngest.ToDictMeaning | books_scrapper.py:40 | The normalised row has exactly the normalised headers as keys. When two raw headers normalise to the same key, the one later in `row.items()` wins. |
| CsvIngest.FirstFilled | books_scrapper.py:42-45 | An `or` chain of `norm.get` is `''` exactly when every synonym is missing or empty. Otherwise it is the value of the first synonym that has a non-empty value. |
| CsvIngest.ParseAge | books_scrapper.py:44-52 | An age is read exactly when the age cell is non-empty and an integer literal, ignoring the interpreter's digit limit. Any other cell gives no age and never an error. |
| CsvIngest.ParseAgeString | books_scrapper.py:49-52 | Every integer written out is read back as itself. |
| CsvIngest.CellScoresMeaning | books_scrapper.py:47-68 | One score per non-blank delimiter-free run of the grade cell, in order. A run has no score exactly when it has no digit; otherwise its score is the first number token in it. |
| CsvIngest.StepValid | books_scrapper.py:54-69 | One pass of the row loop keeps `students_map` well formed: each key is listed once, and every pending grade belongs to a known key. |
| CsvIngest.StepOrder | books_scrapper.py:54-61 | A row appends its key to the dict's key order exactly when the key is new. |
| CsvIngest.StepEntries | books_scrapper.py:54-64 | A new key gets the row's name, email and age. A known key gets the row's age only if it had none. No other entry changes. |
| CsvIngest.StepPending | books_scrapper.py:66-69 | A row appends one pending grade per score under its key and leaves the earlier pending grades in place. |
| CsvIngest.Collect | books_scrapper.py:39-69 | The dict after all rows is well formed. |
| CsvIngest.KeyIds | books_scrapper.py:72-75 | `key_to_new_id` has exactly the keys of `students_map`. The key at position i gets id i + 1. |
| CsvIngest.RemapGrades | books_scrapper.py:84-91 | The remap drops nothing when every key has a non-zero id, and then keeps each score with the id of its key. |
| CsvIngest.RenumberKeepsGrades | books_scrapper.py:72-91 | Each pending grade becomes exactly one grade, whose id lies in 1..N and names the student of its key. |
| Ordered.Distinct | books_scrapper.py:56-61 | The dict's key order has no duplicates and holds exactly the keys inserted. |
| Ordered.DistinctFirstAppearance | books_scrapper.py:74 | `enumerate(students_map.items())` visits keys by the index of their first appearance. |
| Ordered.DistinctCard | books_scrapper.py:56-61 | The dict holds one entry per distinct key. |
| IngestSpec.KeysAt | books_scrapper.py:54 | A row's key is its name, or `unknown_<k+1>` when the name is empty, where k counts the distinct keys of the rows before it. The email is part of the key. |
| IngestSpec.KeysUnique | books_scrapper.py:54 | That rule determines the keys of all rows. |
| IngestSpec.FirstAgeMeaning | books_scrapper.py:63-64 | A key's age is the age of its first row that gave one. It is none exactly when no row of the key gave one. |
| IngestSpec.CollectOrder | books_scrapper.py:56-61 | After the loop, the key order of `students_map` is the rows' keys by first appearance. |
| IngestSpec.CollectEntries | books_scrapper.py:56-64 | After the loop, each key holds the name of its first row, its email, and its first age. |
| IngestSpec.CollectPending | books_scrapper.py:66-69 | After the loop, `grades_temp` lists every grade value of every row in row order, under that row's key. |
| IngestSpec.IngestStudents | books_scrapper.py:36-81 | The output has one student per distinct key. Student i has id i, the first row's raw name (empty for a placeholder key), the key's email and the first age given. |
| IngestSpec.IngestStudentOrder | books_scrapper.py:72-81 | Student ids are dense, 1..N, in order of the keys' first appearance. |
| IngestSpec.IngestGrades | books_scrapper.py:66-91 | There is one grade per grade value, in row order. Its id lies in 1..N and is the student of its row's key, so the `if new_sid` guard drops nothing. |
| IngestSpec.PlaceholderInjective | books_scrapper.py:54 | Different student counts give different placeholder names. |
| IngestSpec.UnnamedRowIsNew | books_scrapper.py:54-57 | An unnamed row always starts a new student, provided no earlier row is named like a placeholder. |
| IngestSpec.PlaceholderCollision | books_scrapper.py:54-56 | A row named `unknown_2` and a later unnamed row with no email share one key and one student. |
| WorkedCases.BracketedScore | books_scrapper.py:11-12 | `"[9]"` scores `"9"`. |
| WorkedCases.PercentScore | books_scrapper.py:11-12 | `"88%"` scores `"88"`. |
| WorkedCases.PaddedDecimalScore | books_scrapper.py:8-12 | `" 7.5 "` scores `"7.5"`. |
| WorkedCases.SecondDotScore | books_scrapper.py:12 | `"12.5.6"` scores `"12.5"`. |
| WorkedCases.TrailingDotScore | books_scrapper.py:12 | `"12."` scores `"12"`. |
| WorkedCases.NoNumberNoScore | books_scrapper.py:6-14 | `"n/a"`, `""` and a missing value have no score. |
| WorkedCases.AgeCells | books_scrapper.py:49-52 | `"abc"`, `""` and `"12.5"` give no age, and `"42"` gives 42. |
| WorkedCases.SignedAgeCells | books_scrapper.py:49-52 | `"+42"` gives 42, `"-042"` gives -42 and `"-0"` gives 0. |
| WorkedCases.MixedDelimiterCell | books_scrapper.py:23-30 | `"8; 9 / 10"` splits into `"8"`, `"9"` and `"10"`. |

## Left out

- Opening the file and `csv.DictReader` (books_scrapper.py:32-34) are I/O. The rows are an input: each row is `row.items()`, a sequence of (header, cell) pairs with distinct raw headers in the dict's key order, and the cell is missing where a short row has no value.
- How `DictReader` builds each row with `dict(zip(fieldnames, cells))` is part of the reader. A header repeated verbatim in the file keeps the place of its first column and the cell of its last column, before line 40 sees the row.
- Rows longer than the header are left out. `DictReader` files their extra cells under the key `None`, on which line 40 would call `strip()` and fail. This is part of the reader's I/O.
- ScoreParser.ParseScore: returns the matched token rather than `float(token)` (line 16). Floating point is out of scope. Every token the regex matches is a valid float literal, so the `except` at lines 17-18 is not reached.
- Text.Strip: only the ASCII whitespace `str.isspace()` accepts is modelled. The same set stands for the regex class `\s`.
- Text.Lower: `str.lower()` lower-cases only ASCII letters here.
- Numerals.ParseInt: `int()` is modelled on ASCII digits and an optional sign. Underscores between digits and Unicode digits are left out. Surrounding whitespace never reaches it, since line 40 strips every cell.
- Numerals.ParseInt: the interpreter's limit on decimal conversion (`sys.get_int_max_str_digits()`, 4300 digits by default in current CPython) is not modelled. Under that limit an age cell of more than 4300 digits makes `int()` raise, and line 51 turns it into no age, while the model reads the number. The same limit would make `str()` raise on integers of more than 4300 digits; `Numerals.ParseIntString` and `Numerals.ParseIntLeadingZero` are stated without it.
- CsvIngest.ParseAge: reads every integer literal, whatever its length, because of the digit limit left out under `Numerals.ParseInt` above; the source gives no age for a cell of more than 4300 digits.
- ScoreParser.ParseScore: the regex class `\d` at line 12 matches ASCII digits only here. Python's `\d` on `str` patterns also matches other Unicode decimal digits, such as `"٩٥"`, which Python scores as 95 and the model does not score.
- The `'feedback': None` field of `grades_temp` (line 69) is not in the output, so the model leaves it out.
- The `__main__` demo (lines 95-99) prints JSON. It is I/O.
- The rest of the repository is not part of this model: the Streamlit app, the FastAPI routers, the database layer, the Faker generator and the pydantic schemas.
