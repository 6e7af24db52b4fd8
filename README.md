# Flood risk prediction handler

A Dafny model of the `/predict` request handler of the flood prediction
service (`predict_flood` in `main.py`). The handler receives a district name
and twelve current monthly rainfall values. It refuses a request that does not
carry exactly twelve values (HTTP 400). It then selects every row of the
reference rainfall dataset whose `District` cell equals the requested name
after lower-casing both, and refuses the request when none does (HTTP 404).
It takes the `JAN_normal` … `DEC_normal` cells of the selected rows, row after
row, appends the twelve request values, hands that vector to the trained
classifier, decodes the predicted class with the label encoder, and answers
with the title-cased request name and the decoded label.

The model has three modules:

- `Text` (`text.dfy`): ASCII `str.lower` and `str.title`. Re-casing, idempotence
  and "title-casing keeps the lower-cased form" are proved.
- `Dataset` (`dataset.dfy`): the data frame as a header of numeric column names
  plus rows. Each row holds its `District` cell and one numeric cell per
  column. The module has selection of columns by name, the case-insensitive
  row filter, and the flattening of the selected rows' normals.
- `FloodApi` (`flood_api.dfy`): the request, the response (a prediction or a
  failure carrying its HTTP status), the feature vector, and the handler with
  its lemmas.

The dataset, the classifier and the label encoder are loaded once at start-up
and only read afterwards. They are parameters here: the frame is a value, and
`predict` and `decode` are arbitrary functions. Nothing is assumed about what
they compute.

`PredictFlood` requires only `WellFormed(frame)`. This holds for every data
frame `read_csv` produces: column names are unique, since duplicate headers
are renamed, and every row has one cell per column.

Two points where the handler's behaviour is easy to misread:

- Several rows may match: they are all kept, and the vector then has
  12·k + 12 entries for k matching rows. The handler checks no length of 24.
  `SingleMatchFeatures` shows the 24-entry layout when district names are
  unique up to case.
- A frame that lacks one of the twelve normal columns makes the column
  selection raise an uncaught `KeyError`, which the web framework answers
  with HTTP 500. The model returns `Failure(500)` in that case, after the
  400 and 404 checks, as in the code.

## Model

| member | source | states |
|---|---|---|
| `Text.Lower` | main.py:25 | `str.lower` keeps the length and lower-cases each ASCII letter in place, leaving every other character unchanged |
| `Text.LowerIdempotent` | main.py:25 | lower-casing a lower-cased name changes nothing |
| `Text.RecasedIffSameLower` | main.py:25 | two names lower-case to the same string exactly when one is the other with some letters re-cased (both directions) |
| `Text.TitleFrom` | main.py:45 | the `str.title` loop: a letter right after a letter is lower-cased, every other letter is upper-cased, non-letters are kept |
| `Text.TitleCase` | main.py:45 | `str.title`: position i is upper-cased when it starts a word (first position, or after a non-letter), lower-cased otherwise |
| `Text.TitleCaseIdempotent` | main.py:45 | title-casing a title-cased name changes nothing |
| `Text.LowerOfTitleCase` | main.py:45 | a title-cased name lower-cases to the same string as the original |
| `Text.TitleCaseRecased` | main.py:45 | names that lower-case alike title-case to the same string |
| `Dataset.IndexOf` | main.py:35 | selecting a column by name finds the position that carries that name and no earlier one |
| `Dataset.Project` | main.py:30-35 | `row[rainfall_columns]` yields one cell per requested name, in the order of the names, each the cell under the column of that name |
| `Dataset.NormalsOfCanonicalLayout` | main.py:30-35 | when the file lists the twelve normal columns first in month order, the selected normals are exactly the row's first twelve cells |
| `Dataset.Lookup` | main.py:25 | the filter returns only rows of the table whose lower-cased name equals the lower-cased request, and every such row; it is empty exactly when no row matches |
| `Dataset.LookupAppend` | main.py:25 | the filter keeps table order: the matches of a concatenation are the matches of the first part followed by those of the second |
| `Dataset.LookupRecased` | main.py:25 | any re-casing of the requested name selects the same rows |
| `Dataset.LookupUnique` | main.py:25-26 | with names unique up to case, the selection for a present district is exactly that district's row |
| `Dataset.LookupNone` | main.py:25-27 | a table with no matching row yields an empty selection |
| `Dataset.PastRainfall` | main.py:35 | `.values.flatten()` gives 12 values per selected row; block k is row k's normals, January to December |
| `FloodApi.Assemble` | main.py:38 | the feature vector has 12·k + n entries: block k is selected row k's normals, and the tail is the request's n values unchanged and in order |
| `FloodApi.PredictFlood` | main.py:20-47 | a wrong count of values gives 400 whatever the district; with 12 values, 404 exactly when no row matches; 500 exactly when a row matches and a normal column is missing; otherwise a prediction whose district is the title-cased request |
| `FloodApi.PredictionIsDecodedLabel` | main.py:35-46 | on success, at least one row matched, the vector has 12·k + 12 entries ending in the request's values, and the label is exactly `decode(predict(vector))` |
| `FloodApi.ReturnedDistrictIsTitledRequest` | main.py:45 | the returned district is already title-cased, lower-cases like the request, and selects the same rows as the request |
| `FloodApi.PredictFloodCaseInsensitive` | main.py:20-47 | two requests whose names differ only in letter case get identical responses |
| `FloodApi.SingleMatchFeatures` | main.py:25-46 | with names unique up to case and the district present, the classifier sees 24 values (that row's JAN..DEC normals, then the request's 12 values), and the response is the title-cased name with the decoded label |

## Left out

- HTTP routing, request parsing and validation by the web framework (main.py:1-2, 14-21): the request is a value. Type errors the framework reports as 422 are not modelled.
- Loading the classifier, the label encoder and the CSV file (main.py:8-12): these are file I/O at start-up. They are parameters of the handler.
- The classifier and the label encoder: their internals are foreign library code, so they are arbitrary functions. The errors they can raise are not modelled. One example is a feature vector whose length is not the 24 the classifier was trained on, which arises when several rows match.
- `astype(float)` (main.py:35): cells are modelled as numbers that are already parsed. Unparsable cells and NaN are not modelled.
- Floating point: values are only copied, never computed on. They are modelled as `real`.
- Unicode case mapping: `Lower` and `TitleCase` are exact only for ASCII. Other characters are kept unchanged and treated as uncased, whereas Python would case-map them.
- The `District` column is assumed present and to hold strings. A missing column, or a non-string cell that `.str.lower()` turns into NaN, is not modelled.
- The training script (train.py): offline model fitting on data it does not define.
