# JLPT adjective quiz: word-pool preparation

This project models, in Dafny, how the quiz page prepares the words it asks
about, and proves what each step promises. The quiz page is `app.py`. The
adjective-pool helper is `src/generator.py`.

- **Loading** (`App.LoadFrame`, specified by `App.LoadTable`). The word list
  is read with commas. When that parse yields a single column whose name
  holds a tab, the file is read again with tabs. Then the header is
  overwritten in place with cleaned names: every U+FEFF removed, then
  surrounding whitespace stripped as Python's `str.strip()` does.
- **The pool** (`App.Pool`). The rows whose `level` is `N4` and whose `pos` is
  `i_adj`, kept as a copy and in their original order.
- **The guard and the draw** (`App.DrawQuestions`). With fewer than ten pool
  rows the page stops and reports the pool size. Otherwise ten distinct pool
  rows are drawn and relabelled 0..9.
- **`load_adj_pool`** (`Generator.LoadAdjPool`, `Generator.AdjPool`). The rows
  whose `pos` is `i_adj` or `na_adj`, relabelled 0..k-1.

The pandas operations the code relies on are modelled in module `Frames`:

- `read_csv` as a plain split on one separator character;
- column lookup;
- boolean masks (`==`, `isin`, `&`) and boolean indexing;
- `reset_index(drop=True)`;
- `sample`;
- a `DataFrame` class whose header can be overwritten in place.

Module `Strings` models the Python string operations the code uses. Row
labels (the pandas index) are kept in every `Row`. That is what shows that
the filter keeps the old labels and `reset_index(drop=True)` replaces them
without adding a column.

Modules: `Wrappers` (a `Result` type), `Strings`, `Frames`, `App` (app.py),
`Generator` (src/generator.py).

Which columns the code needs, and when:

- Before the draw, only `df["level"]` and then `df["pos"]` are looked up
  (app.py:48). A missing one stops the page (`App.QuizError.ColumnError`).
  `jp_word`, `reading` and `meaning` are first used by the display loop
  (app.py:63), which is not modelled.
- `app.py` filters on the fixed level `N4` and the single kind `i_adj`.
  `load_adj_pool` filters on the kind only, keeping `i_adj` and `na_adj`.
- The multiple-choice options and grading do not exist in this code
  (app.py:59).

## Model

| member | source | states |
|---|---|---|
| `Strings.Split` | app.py:23 | A plain one-character split always gives at least one piece. No piece holds the separator. Joining the pieces gives back the line. |
| `Strings.SplitJoin` | app.py:23 | Splitting undoes joining when no piece holds the separator. This is the round trip of the field split. |
| `Strings.SplitSingle` | app.py:26 | A line splits into exactly one field iff it holds no separator, and that field is then the whole line. |
| `Frames.WithoutLeadingMark` | app.py:23 | The reader drops the text's first character exactly when it is a byte-order mark. Otherwise the text is unchanged. |
| `Frames.LeadingMarkIgnored` | app.py:23 | A file read with a leading byte-order mark gives the same lines as the file without it. |
| `Frames.NonBlankSelects` | app.py:23 | The lines the reader keeps are exactly the non-empty lines, each once, in their original order. |
| `Frames.ParseRowJoin` | app.py:23 | A data line made of separator-free fields is read back field by field. A non-empty field becomes its text, an empty field a missing value, and the columns past the last field are missing. |
| `Frames.ParseRows` | app.py:23 | Parsing fails iff some data line is too long. Otherwise there is one row per line, labelled consecutively. |
| `Frames.ReadTable` | app.py:23 | `read_csv` fails iff there is no non-blank line or a data line is longer than the header. On success the header is the first non-blank line split on the separator. Row k is the parse of the (k+1)-th non-blank line under that header, labelled k. Every row has one field per column. |
| `App.NeedsTabs` | app.py:26 | The fallback test holds iff the comma parse gave one column and that header line holds a tab. |
| `App.NeedsTabsOnHeader` | app.py:26-27 | The comma parse gives one column holding a tab exactly when the header line has a tab and no comma. |
| `App.LoadUsesDetectedSeparator` | app.py:23-35 | The loaded table is the tab parse exactly when the header line has a tab and no comma, and the comma parse in every other case. Its header is the cleaned split header line. Loading fails iff the comma parse fails, or the tab parse fails when it is used. |
| `App.TabHeaderDetected` | app.py:23-35 | A header of two or more tab-joined names with no comma loads as one column per name, each name cleaned. |
| `App.LoadTable` | app.py:23-35 | A loaded table is well formed and labelled 0..n-1. |
| `App.LoadFrame` | app.py:23-35 | The step-by-step loader returns a fresh frame whose table is `LoadTable`'s, or `LoadTable`'s error. |
| `Frames.DataFrame.SetColumns` | app.py:30 | Assigning `df.columns` replaces the header and leaves the rows, and so the frame's well-formedness, unchanged. |
| `Strings.RemoveAll` | app.py:33 | `replace(c, "")` removes every `c`. Every other character is kept as often as it occurs (the multiset of the name with `c` taken out). |
| `Strings.RemoveAllConcat` | app.py:33 | Removal works piece by piece, so the kept characters stay in their order. |
| `Strings.RemoveAbsent` | app.py:33 | Removing a character that does not occur leaves the name unchanged. |
| `Strings.TrimStart` | app.py:34 | `lstrip` drops exactly the leading run of whitespace. |
| `Strings.TrimEnd` | app.py:34 | `rstrip` drops exactly the trailing run of whitespace. |
| `Strings.Strip` | app.py:34 | `strip` returns a name that neither starts nor ends with whitespace and holds no character the input lacks. |
| `Strings.StripSpec` | app.py:34 | `strip` returns a contiguous piece of the name. Everything it cuts off is whitespace, and the result neither starts nor ends with whitespace. |
| `Strings.StripIdempotent` | app.py:34 | Stripping twice is stripping once. |
| `App.CleanName` | app.py:33-34 | A cleaned name holds no U+FEFF and neither starts nor ends with whitespace. |
| `App.NormalizeHeader` | app.py:30-35 | Normalisation changes names only. The number and order of columns stay the same, and each name is cleaned on its own. |
| `App.CleanNameSpec` | app.py:30-35 | A cleaned name is clean. It is a contiguous piece of the name with its marks removed, cut only at whitespace. |
| `App.CleanNameFixed` | app.py:30-35 | Cleaning leaves an already clean name unchanged. |
| `App.NormalizedNamesClean` | app.py:33-34 | After normalisation no column name holds U+FEFF, starts with whitespace or ends with whitespace. |
| `App.NormalizeIdempotent` | app.py:30-35 | Normalising a second time changes nothing. |
| `App.LoadedHeaderClean` | app.py:30-35 | Every column name of a loaded table is clean. |
| `Frames.Eq` | app.py:48 | `df[name] == value` is true exactly on the rows whose field is that text. A missing field never matches. |
| `Frames.IsIn` | src/generator.py:5 | `isin` is true exactly where the field is a text in the given set. It is never true on a missing field. |
| `Frames.EqIsIn` | app.py:48 | Comparing with one text gives the same mask as `isin` with that one text. |
| `Frames.And` | app.py:48 | `a & b` is true exactly where both masks are. |
| `Frames.Where` | app.py:48 | Boolean indexing never adds rows and returns only rows of the input. |
| `Frames.WhereSelects` | app.py:48 | Boolean indexing returns exactly the rows where the mask is true, each unchanged, in their original relative order. |
| `Frames.WhereLength` | src/generator.py:5 | Boolean indexing never adds rows. It keeps all of them exactly when the mask is all true. |
| `App.Pool` | app.py:48 | The pool is a well-formed table with the input's columns and no more rows than the input. |
| `App.PoolSelects` | app.py:44-48 | The pool keeps the columns. It holds exactly the rows with level `N4` and pos `i_adj`, with labels and fields unchanged and in their original order. The table itself is an unchanged value. |
| `Frames.Sample` | app.py:57 | `sample(n)` returns `n` rows of the table at distinct positions, in the order drawn, with labels and fields kept. |
| `Frames.ResetIndex` | app.py:57 | `reset_index(drop=True)` labels the rows 0..n-1 and keeps the columns, the number of rows and every row's fields. No column is added. |
| `Frames.ResetIndexFixed` | src/generator.py:5 | A table already labelled 0..n-1 is unchanged by renumbering. |
| `App.DrawQuestions` | app.py:50-57 | The page stops with the pool size, drawing nothing, iff the pool has fewer than 10 rows. Otherwise the questions are 10 distinct pool rows, with the pool's columns, relabelled 0..9. |
| `App.Run` | app.py:23-57 | The whole preparation gives one of four results, and nothing is drawn when it stops. A read error stops the page. A missing `level` column, then a missing `pos` column, stops it with that name. A pool smaller than 10 stops it with the pool size. Otherwise 10 distinct rows are drawn from the pool of the loaded table. |
| `Generator.LoadAdjPool` | src/generator.py:3-5 | `load_adj_pool` fails with the reader's error, or with a column error when `pos` is missing. It succeeds iff the comma read succeeds with a single `pos` column, and then returns `AdjPool` of the read table. |
| `Generator.AdjPool` | src/generator.py:5 | The result keeps the input's columns, is well formed, and is never longer than the input. It is labelled 0..k-1, so the old index is dropped and not added as a column. |
| `Generator.AdjPoolSelects` | src/generator.py:5 | The result holds exactly the `i_adj`/`na_adj` rows, with fields unchanged, in their original relative order and under the original columns. |
| `Generator.AdjPoolKinds` | src/generator.py:5 | Every row returned has `pos` equal to `i_adj` or `na_adj`. |
| `Generator.AdjPoolComplete` | src/generator.py:5 | Every input row whose `pos` is `i_adj` or `na_adj` appears in the result. |
| `Generator.AdjPoolLength` | src/generator.py:5 | The result is never longer than the input. It is as long exactly when every input row is one of the two adjective kinds. |

## Left out

- The Streamlit calls (`set_page_config`, `title`, `caption`, `write`, `dataframe`, `error`) and the display loop at app.py:61-64 are presentation. `st.stop()` is modelled only as a `Failure` result with no questions.
- `read_csv` is modelled as a plain split of the text on `'\n'` and then on one separator character, after skipping one byte-order mark at the start of the file. Not modelled: quoting and escapes, `\r\n` line ends and a lone `\r` as a line end (both stay inside the line), dtype inference, and NA markers other than the empty field (other markers stay text). Also not modelled: renaming duplicate header names (`x`, `x.1`) and naming empty header fields `Unnamed: i`. The implicit index columns that pandas makes when the first data line is longer than the header are not modelled either. pandas then uses the extra leading fields as the index and succeeds; the model reports `TooManyFields`, as for any other long line.
- Frames.NonBlank: only empty lines are skipped. pandas also skips lines made only of spaces and tabs (unless the line contains the separator), and the model keeps those as data lines.
- Frames.HasColumn: a name that occurs twice after cleaning makes pandas return a sub-frame. The model reports such a name as a `ColumnError`, like a missing name.
- File-system access (`Path.resolve`, `CSV_PATH.exists()`, the default path of `load_adj_pool`) is I/O. The loaders take the text of the file as a parameter.
- Frames.Sample: the choice of rows is left open. Any distinct positions are allowed. Uniformity and seeding are not modelled. It requires `n` to be at most the table's length, since pandas raises otherwise; the only caller checks this first.
- Frames.DataFrame.SetColumns: requires the new header to have the old width, since pandas raises otherwise. The only caller keeps the width.
- `.astype(str)` at app.py:32 is the identity here, because header names are always strings in the model.
