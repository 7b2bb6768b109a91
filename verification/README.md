# python-collab-template, modelled in Dafny

The repository is a template for Python projects. Its logic that can be stated
precisely sits in three places, and this project models each as pure
functions with proved properties:

- `src/example.py` — `calculate_moving_average`: for each index of a series of
  data points, the mean of the trailing window of at most `window_size`
  values (module `Example`, file `example.dfy`).
- `src/data_prep/categorical.py` — `lowercase_string`, `lowercase_column` and
  `extract_title`, the last one a search for the pattern ` ([A-Za-z]+)\.`
  with an optional remapping dictionary (module `Categorical`,
  `categorical.dfy`). A data frame is a map from column name to a sequence of
  cells; a cell is a string or the missing value (NaN).
- `scripts/init_project.py` — `prompt_with_default`, the `or` fallback from
  the git identity to fixed placeholders, and `update_pyproject_toml` as an
  update of an abstract TOML document (module `InitProject`,
  `init_project.dfy`).

`wrappers.dfy` holds the `Option` and `Result` datatypes. Exceptions of the
source (`StatisticsError`, `KeyError`, `AttributeError`, `TypeError`) are
`Failure` values, not preconditions. Values are exact `real`s. Strings are
sequences of Unicode scalar values.

Inputs the program reads from outside are parameters: the line typed at a
prompt (`input()`), the standard output of `git config user.<key>` (or `None`
when git exits with a non-zero status), and the TOML document loaded from
`pyproject.toml`. An update that fails raises before the file is written, so a
`Failure` result means the file is left as it was.

## Model

| member | source | states |
|---|---|---|
| `Example.CalculateMovingAverage` | src/example.py:16-35 | The loop fails (mean of an empty window) exactly when there is data and the window size is not positive; otherwise it returns one average per data point, element `i` being the mean of the values from `max(0, i - w + 1)` to `i`, and it agrees with the reference definition `MovingAverage` |
| `Example.MovingAverage` | src/example.py:28-35 | The reference definition fails exactly for non-empty data with a window size of at most zero, and otherwise has the length of the input |
| `Example.Window` | src/example.py:32 | For `w >= 1` the window at `i` has `min(i + 1, w)` values and is the suffix of the values up to `i`; for `w <= 0` the Python slice is empty |
| `Example.AverageOfTrailingWindow` | src/example.py:32-33 | A successful average implies `w >= 1`, and its element `i` is the mean of the values at indices `max(0, i - w + 1)` through `i` |
| `Example.WindowSize` | src/example.py:32 | For `w >= 1` every window is non-empty with at most `w` values, and has exactly `w` values if and only if `i >= w - 1` |
| `Example.WindowOfOneIsIdentity` | src/example.py:32-33 | A window of size one returns the values themselves |
| `Example.FirstAverageIsFirstValue` | src/example.py:32-33 | For any positive window size the first average equals the first value |
| `Example.MeanBounds` | src/example.py:33 | The mean of a non-empty sequence lies between any lower and upper bound of its terms |
| `Example.AverageWithinRange` | src/example.py:31-33 | Every moving average lies within any range that holds all the values |
| `Example.OnlyValuesMatter` | src/example.py:28 | Series with equal values but different timestamps or labels have the same moving average |
| `Example.DefaultWindowAverages` | src/example.py:16-18 | With the default window size of 3 the average always succeeds, and element `i` averages `min(i + 1, 3)` values |
| `Example.ExampleSeries` | tests/test_example.py:4-13 | Values 1, 2, 3, 4 with window size 2 give 1, 1.5, 2.5, 3.5 |
| `Categorical.LowercaseString` | src/data_prep/categorical.py:10-19 | The result has the input's length, lowercases each ASCII capital, keeps every other character, and contains no ASCII capital |
| `Categorical.LowercaseIdempotent` | src/data_prep/categorical.py:10-19 | Lowercasing twice equals lowercasing once |
| `Categorical.LowercaseColumn` | src/data_prep/categorical.py:22-33 | A missing column is a `KeyError`, a missing value in it an `AttributeError`; otherwise only column `col` changes, cell by cell to its lowercase, with the same row count and the same set of columns |
| `Categorical.LowercaseColumnKeepsRows` | src/data_prep/categorical.py:32-33 | A frame whose columns all have `n` rows still has `n` rows in every column after lowercasing |
| `Categorical.LowercaseColumnIdempotent` | src/data_prep/categorical.py:32-33 | Lowercasing a column again leaves the frame unchanged |
| `Categorical.MatchAt` | src/data_prep/categorical.py:53 | A title the scanner reports at position `p` is a match of ` ([A-Za-z]+)\.` starting at `p` |
| `Categorical.MatchAtComplete` | src/data_prep/categorical.py:53 | Every match of the pattern at `p` is reported by the scanner at `p` with the same captured letters |
| `Categorical.ExtractTitle` | src/data_prep/categorical.py:53 | An extracted title is non-empty and made only of `A-Z`/`a-z` |
| `Categorical.ExtractTitleIsLeftmost` | src/data_prep/categorical.py:53 | An extracted title is the capture of a match with no match starting further left |
| `Categorical.ExtractTitleFindsLeftmost` | src/data_prep/categorical.py:53 | Whenever a leftmost match exists, its capture is the extracted title |
| `Categorical.ExtractTitleMissingIffNoMatch` | src/data_prep/categorical.py:53 | The title is missing (NaN) if and only if the pattern matches nowhere in the string |
| `Categorical.ExtractTitleColumn` | src/data_prep/categorical.py:36-62 | A missing source column is a `KeyError`; otherwise the result has the old columns plus `title_col`, the title column has one cell per row, and every other column is unchanged |
| `Categorical.ExtractTitleColumnWithoutRemap` | src/data_prep/categorical.py:53-55 | With the dictionary absent or empty each title cell is missing for a missing source cell or a string without a match, and is the leftmost match's capture otherwise |
| `Categorical.ExtractTitleColumnRemap` | src/data_prep/categorical.py:55-60 | With a non-empty dictionary a title that is a key becomes the key's value; a missing title, or one that is not a key, is kept |
| `Categorical.ExtractTitleColumnKeepsRows` | src/data_prep/categorical.py:53 | A frame whose columns all have `n` rows keeps `n` rows in every column, the new title column included |
| `Categorical.ExampleTitle` | src/data_prep/categorical.py:53 | "Braund, Mr. Owen Harris" yields "Mr"; "Mr. Smith", with no space before the title, yields no title |
| `InitProject.Strip` | scripts/init_project.py:12 | The stripped string sits inside the original with only whitespace (Python's `str.isspace`) before and after it, and neither starts nor ends with whitespace |
| `InitProject.StripCharacterized` | scripts/init_project.py:12 | Any string meeting that description is the one `Strip` returns |
| `InitProject.StripIdempotent` | scripts/init_project.py:12 | Stripping twice equals stripping once |
| `InitProject.StripEmptyIff` | scripts/init_project.py:13 | The stripped response is empty (falsy) exactly when the response holds only whitespace |
| `InitProject.PromptWithDefault` | scripts/init_project.py:10-13 | When the response holds a non-whitespace character, the answer is the non-empty stripped response; otherwise it is the default, unchanged |
| `InitProject.PromptAnswerStable` | scripts/init_project.py:10-13 | Typing the answer back in at the same prompt yields the same answer when the default has no surrounding whitespace |
| `InitProject.GitDefault` | scripts/init_project.py:71-76 | A git lookup where git exited with a non-zero status (`None`), or printed only whitespace, falls back to the placeholder; otherwise the default is the stripped git output |
| `InitProject.CleanIffStripFixed` | scripts/init_project.py:12 | A string is non-empty and neither starts nor ends with whitespace if and only if it is non-empty and stripping leaves it unchanged |
| `InitProject.DefaultsAreClean` | scripts/init_project.py:65-76 | The four fixed defaults are non-empty and have no surrounding whitespace |
| `InitProject.CollectProjectInfo` | scripts/init_project.py:64-76 | Whatever is typed and whatever git reports, the project name, description, author name and email are non-empty and have no surrounding whitespace |
| `InitProject.AuthorFallback` | scripts/init_project.py:71-76 | With blank answers the author name and email are "Your Name" and "your.email@example.com" when git gives nothing usable, and the stripped git values otherwise |
| `InitProject.UpdatePyproject` | scripts/init_project.py:26-48 | No `project` key is a `KeyError` and a non-table `project` a `TypeError`; on success the top-level keys and every other table are unchanged, `project.name` and `project.description` are the inputs, `project.authors` is exactly the one table `{name, email}`, and every other key of `project` is unchanged |
| `InitProject.UpdateIdempotent` | scripts/init_project.py:40-44 | Updating an updated document with the same arguments returns it unchanged |
| `InitProject.UpdateForgetsOldFields` | scripts/init_project.py:40-44 | Documents differing only in the old name, description or authors update to the same document |

## Left out

- `get_git_config`, `run_command`, `input()` and the process calls: the terminal line and the git output are parameters; `subprocess` is not modelled.
- `get_git_config` catches only `CalledProcessError`: when git cannot be started, `check_output` raises `FileNotFoundError`/`OSError`, which is not caught and stops the script at the author-name prompt. That uncaught error is not modelled; the git lookup here is either output or `None`.
- `main`'s orchestration (`make clean-example`, removing `.git`, `git init`, `git add`, `git commit`, `make setup`, the printed messages): file-system and process I/O. A failing command makes `run_command` exit with status 1; that is not modelled.
- TOML parsing and serialisation (`tomli.load`, `tomli_w.dump`): the document is an abstract map; no parse/serialise round trip is claimed, and floats, dates and the order of keys in a table are not modelled.
- `InitProject.UpdatePyproject`: does not model the key order `tomli_w` writes; new keys go at the end of a Python dict, and a map has no order.
- `Categorical.LowercaseString`: lowercases ASCII capitals only, because full Unicode `str.lower` (including mappings that change length) is not modelled.
- `Categorical.ExtractTitleColumn`: pandas dtypes are not modelled. The `.str` accessor raises when the column's dtype is not object or string (for example an all-NaN float64 column or an int column); here a missing cell simply gives a missing title.
- `Categorical.ExtractTitleColumnRemap`: the values of the remapping dictionary are strings or missing values; other Python values (`Any`) are not modelled.
- pandas in-place mutation: `lowercase_column` and `extract_title` change and return the same frame object; here they return a new frame.
- `statistics.mean` works on floats; float rounding is not modelled and values are exact reals.
- `Example.DataPoint`: the `datetime` timestamp is an abstract integer and the `label` field is named `tag` (`label` is a Dafny keyword). The default window size of 3 is the constant `DefaultWindowSize`; Dafny callers pass it explicitly (see `Example.DefaultWindowAverages`).
- `setup.py` and `tests/test_docs_setup.py`: setuptools invocation and file checks, with no logic of their own.
