# Depth filter and filename title: a verified model

This project models the two build hooks of a MkDocs documentation container:

- **Depth filter** (`on_files`): before the build, the host hands over every
  discovered source file. When the `MKDOCS_DEPTH` environment variable holds an
  integer, only the files whose path contains fewer `/` characters than that
  integer are kept, in their original order. When the variable is unset, empty
  or not an integer, every file is kept.
- **Filename title** (`on_page_content`): after a page is rendered, its title
  is overwritten with the stem of its source path (the last path segment
  without its last extension), and the rendered HTML is handed back unchanged.

Modules:

- `Wrappers` (`wrappers.dfy`): the `Option` datatype.
- `Structure` (`structure.dfy`): the host's objects. `File` is a value holding
  `srcPath`. `Page` is a class whose `title` the hook overwrites in place.
- `IntParse` (`int_parse.dfy`): the part of Python's `int()` the filter relies
  on, with its inverse `ShowInt` and the round trip between them.
- `DepthFilter` (`depth_filter.dfy`): `Depth`, the specification function
  `Keep`, the hook `OnFiles` as a method whose loop builds the kept list, and
  lemmas about `Keep`.
- `FilenameTitle` (`filename_title.dfy`): `LastIndexOf` (Python's
  `str.rfind`), `BaseName`, `StemOfName` and `Stem` (pathlib's `name` and
  `stem`), and the hook `OnPageContent`, which changes only `page.title`.

The environment variable is a parameter of type `Option<string>`. `None`
means unset and behaves like the empty string, as `os.environ.get(..., "")`
does. A negative limit is accepted by the code and keeps nothing; the model
follows the code here, although the variable is documented as a non-negative
integer. On the fallback paths the code returns the very same collection
object rather than a new one. The model returns an equal sequence.

## Model

| member | source | states |
|---|---|---|
| `IntParse.ParseInt` | hooks/depth_filter.py:15-18 | A string that parses is non-empty, is digits after an optional sign, and a negative value comes from a leading '-' |
| `IntParse.ParseShowInt` | hooks/depth_filter.py:16 | Every integer written in decimal parses back to itself |
| `IntParse.DigitsValueLeadingZero` | hooks/depth_filter.py:16 | A leading zero does not change the value of a run of digits |
| `IntParse.ParseLeadingZero` | hooks/depth_filter.py:16 | `int("0" + s)` equals `int(s)` for every non-empty run of digits `s` |
| `IntParse.ParseSigned` | hooks/depth_filter.py:16 | `int("+" + s)` equals `int(s)` and `int("-" + s)` is its negation, for every non-empty run of digits `s` |
| `IntParse.ParseIntRejects` | hooks/depth_filter.py:15-18 | The empty string, a sign alone, and any string with a character that is neither a digit nor a leading sign are not integers |
| `IntParse.ExampleParses` | hooks/depth_filter.py:16 | `1`, `-2` and `007` parse to 1, -2 and 7; `two` and `3.5` do not parse |
| `DepthFilter.Depth` | hooks/depth_filter.py:22-23 | A path's depth is the number of '/' characters in it (its multiplicity in the path), so a root-level file has depth 0 |
| `DepthFilter.Keep` | hooks/depth_filter.py:20-25 | The kept list is never longer than the input (its contents are stated by the lemmas below) |
| `DepthFilter.MaxDepth` | hooks/depth_filter.py:11-18 | No limit when the variable is unset or empty; a limit exactly when the value parses as an integer, and then it is that integer |
| `DepthFilter.FilterFiles` | hooks/depth_filter.py:11-27 | The hook's result as a function: never longer than the input, and the input itself when the variable is unset or empty (the remaining cases are stated by `OnFiles` and the lemmas) |
| `DepthFilter.OnFiles` | hooks/depth_filter.py:5-27 | Unset, empty or non-integer variable: the files come back unchanged; otherwise the result is the input files below the limit, in order |
| `DepthFilter.KeepMembership` | hooks/depth_filter.py:21-25 | A file is in the result if and only if it is an input file whose depth is below the limit |
| `DepthFilter.KeepCount` | hooks/depth_filter.py:21-25 | A file below the limit occurs in the result as often as in the input; a file at or beyond it never occurs |
| `DepthFilter.KeepSubsequence` | hooks/depth_filter.py:20-27 | The result is a subsequence of the input: no new entries and relative order preserved |
| `DepthFilter.KeepAllShallow` | hooks/depth_filter.py:21-25 | When every file is below the limit, filtering returns the input unchanged |
| `DepthFilter.KeepIdempotent` | hooks/depth_filter.py:21-25 | Filtering the result again with the same limit changes nothing |
| `DepthFilter.KeepNonPositive` | hooks/depth_filter.py:16-24 | A limit of zero or less keeps no file |
| `DepthFilter.OnFilesIdempotent` | hooks/depth_filter.py:11-27 | Running the hook on its own output with the same variable gives the same output |
| `DepthFilter.OnFilesSubsequence` | hooks/depth_filter.py:11-27 | Whatever the variable, the hook's result is a subsequence of its input |
| `DepthFilter.ExampleDepths` | hooks/depth_filter.py:22-23 | `a.md` has depth 0, `x/b.md` depth 1, `x/y/c.md` depth 2 |
| `DepthFilter.ExampleLimitOne` | hooks/depth_filter.py:11-27 | With `MKDOCS_DEPTH=1`, `a.md`, `x/b.md`, `x/y/c.md` become `a.md` |
| `DepthFilter.ExampleNoLimit` | hooks/depth_filter.py:11-18 | Without the variable, or with the value `two`, the files come back unchanged |
| `FilenameTitle.LastIndexOf` | hooks/filename_title.py:6 | The `rfind` inside `Path.stem`: -1 or an index holding the character, with no occurrence after it |
| `FilenameTitle.BaseName` | hooks/filename_title.py:6 | The final segment has no '/', is a suffix of the path, and is preceded by a '/' unless it is the whole path |
| `FilenameTitle.StemOfName` | hooks/filename_title.py:6 | The stem is a prefix of the segment; when it is shorter, it ends just before the last dot, which is neither the first nor the final character |
| `FilenameTitle.Stem` | hooks/filename_title.py:6 | The title contains no '/', is a prefix of the final segment, and differs from it only by cutting at the last inner dot |
| `FilenameTitle.BaseNameOfJoin` | hooks/filename_title.py:6 | The final segment of `dir/name` is `name` |
| `FilenameTitle.StemOfNameDropsExtension` | hooks/filename_title.py:6 | The segment `base.ext` has stem `base`, whatever dots `base` contains |
| `FilenameTitle.StemDropsLastExtension` | hooks/filename_title.py:6 | The path `dir/base.ext` has stem `base`: only the last extension is removed |
| `FilenameTitle.StemKeepsUndotted` | hooks/filename_title.py:6 | A final segment with no dot strictly inside it is its own stem |
| `FilenameTitle.OnPageContent` | hooks/filename_title.py:4-7 | The content comes back unchanged, the title becomes the stem of the source path whatever it was before, and no other page field changes |
| `FilenameTitle.ExampleNestedPath` | hooks/filename_title.py:6 | `docs/guide/intro.md` is titled `intro` |
| `FilenameTitle.ExampleInnerDot` | hooks/filename_title.py:6 | `a.b.md` is titled `a.b` |
| `FilenameTitle.ExampleNoExtension` | hooks/filename_title.py:6 | `readme` is titled `readme` |
| `FilenameTitle.ExampleDatedName` | hooks/filename_title.py:6 | `notes/2024-plan.md` is titled `2024-plan` |

## Left out

- Reading the process environment: the value of `MKDOCS_DEPTH` is a parameter.
- IntParse.ParseInt: models only an optional sign followed by ASCII digits. Python's `int()` also accepts surrounding whitespace, `_` between digits and non-ASCII decimal digits; the model refuses those strings and so keeps all files where Python would filter. In the other direction, since Python 3.11 `int()` refuses a decimal string of more than 4300 digits (leading zeros included), so the hook keeps every file; the model has no digit limit and filters by the value instead.
- The `Files` container of MkDocs and the construction of a new one from the kept list: the collection is a sequence of `File` values.
- The `config` argument of both hooks and the `files` argument of the content hook: the code never reads them.
- The rendered HTML is opaque: it is a string passed through.
- FilenameTitle.BaseName: no pathlib normalisation. The model differs from pathlib on a trailing '/', on `.` segments and on Windows separators; MkDocs source paths do not contain them.
- FilenameTitle.StemOfName: a segment ending in '.' is kept whole, the rule pathlib applies up to Python 3.13; later pathlib releases may treat the trailing dot differently.
- The automatic discovery of the hooks by the host and the order in which it calls them.
