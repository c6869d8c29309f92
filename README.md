# Category label encoder

This project models the label encoder of the data-preparation script `main.py`.
The script reads a dataset with a `category` column of strings. It builds a
dictionary `cats` that gives each distinct category the index of its position
in an enumeration of `set(category)`. It builds a `labels` list by looking each
row's category up in `cats`. It attaches that list to the dataset as a new
`labels` column.

Everything lives in one module, `LabelEncoder` (`label_encoder.dfy`). The model
is pure: datatypes, functions and lemmas, following the source's
comprehensions.

- The category column is a `seq<string>`.
- Python does not specify the iteration order of a `set`. That order is the
  parameter `order`, which can be any duplicate-free sequence with exactly the
  column's distinct values (`IsEnumerationOf`). No sorted order is assumed.
  Every lemma holds for every such order. `Dedup` shows that every column has
  at least one such order.
- `Cats` is the dictionary comprehension over `enumerate(order)`. It follows
  Python's insertion semantics: if a key repeated, the later index would win.
- `Labels` is the list comprehension. A category missing from the dictionary
  raises `KeyError` in Python. Here it gives `Err(KeyError(c))` for the first
  missing category in row order. With the real `cats`, this never happens.
- `AddColumn` is the row-aligned effect of `add_column`. Row `i` of the new
  dataset pairs category `i` with label `i`. `Encode` is lines 9-11 together.

## Model

| member | source | states |
|---|---|---|
| `LabelEncoder.Distinct` | main.py:9 | `set(data['category'])`: a category is in the set exactly when some row has it, and there are never more distinct categories than rows |
| `LabelEncoder.DistinctAtMostRows` | main.py:9 | a column holds at most as many distinct values as rows |
| `LabelEncoder.CategoryCount` | main.py:9 | K, the number of distinct categories, is at most the number of rows |
| `LabelEncoder.Dedup` | main.py:9 | every category column, the empty one included, has a duplicate-free enumeration of its distinct values, so `set(...)` always yields an order |
| `LabelEncoder.EnumerationLength` | main.py:9 | a duplicate-free enumeration has exactly as many elements as distinct values |
| `LabelEncoder.EnumerationSize` | main.py:9 | any enumeration of the column's set has exactly K elements, K being the number of distinct categories |
| `LabelEncoder.Range` | main.py:9 | the index set 0 .. K-1 holds exactly the integers in [0, K) and has K elements |
| `LabelEncoder.Cats` | main.py:9 | the keys of `cats` are exactly the enumerated categories; each key's value is a position in the enumeration at which that key stands, and no later position holds it (the later entry of a dict comprehension wins) |
| `LabelEncoder.CatsAt` | main.py:9 | over a duplicate-free enumeration, the category at position i maps to i |
| `LabelEncoder.CatsIsBijection` | main.py:9 | the keys of `cats` are exactly the distinct categories of the column; its values are exactly {0, ..., K-1}; it has K entries; no two categories share a value |
| `LabelEncoder.Labels` | main.py:10 | the lookup succeeds if and only if every row's category is a key; on success the result has one entry per row and entry i is `cats[category[i]]`; otherwise the error is KeyError of the first row whose category is missing |
| `LabelEncoder.LabelsSucceed` | main.py:9-10 | with the real `cats` every lookup succeeds, `labels` has the column's length, and every label lies in [0, K) and is the enumeration index of its row's category |
| `LabelEncoder.SameLabelIffSameCategory` | main.py:9-10 | two rows get the same label if and only if they have the same category |
| `LabelEncoder.LabelValues` | main.py:9-10 | the set of labels used is exactly {0, ..., K-1} |
| `LabelEncoder.CategoryColumn` | main.py:11 | projecting the category column keeps one value per row |
| `LabelEncoder.LabelColumn` | main.py:11 | projecting the labels column keeps one value per row |
| `LabelEncoder.AddColumn` | main.py:11 | attaching succeeds exactly when the new column has one value per row; the result's category column is the input column unchanged and its labels column is the attached one; otherwise it reports the length mismatch |
| `LabelEncoder.Encode` | main.py:9-11 | the labelled dataset the script ends with for a given iteration order: it succeeds exactly when every row's category is a key of `cats`; a failure is a KeyError for a category of the column that is missing from `cats`; on success the category column is the input unchanged and the labels column is the lookup result (for the script's real orders, EncodeKeepsRows and EmptyColumn state the rest) |
| `LabelEncoder.EncodeKeepsRows` | main.py:9-11 | for every enumeration order lines 9-11 succeed (for an input without a `labels` column; see Left out); the labelled dataset has the same number of rows in the same order with categories untouched, and each row's label is `cats` of its category, below K |
| `LabelEncoder.EmptyColumn` | main.py:9-11 | an empty column gives an empty `cats` and an empty labelled dataset, with no error |
| `LabelEncoder.TwoCategories` | main.py:9 | a column shaped a, b, a with a different from b has K = 2 |
| `LabelEncoder.ThreeRowExample` | main.py:9-11 | for rows a, b, a (x, y, x, say) under any enumeration order: K = 2, rows 1 and 3 share a label, row 2 has a different one, and both labels lie in [0, 2) |

## Left out

- Loading the CSV file with `Dataset.from_csv` (main.py:8) is file I/O plus a library parser. The `category` column is an input sequence instead. So the loader's errors are not modelled: a missing file, a malformed file, or a missing `category` column.
- The imports of the machine-learning and data libraries (main.py:1-6) are never used by the modelled lines.
- The internals of the library's `add_column` (main.py:11) are not visible. Only its row-aligned effect is modelled. A length-mismatch error is assumed for a column of the wrong length; the script never produces one.
- The `labels` column's name and the dataset's other columns (such as the text column) are not represented. A row of the labelled dataset holds only its category and its label. Those other columns pass through `add_column` untouched.
- EncodeKeepsRows: the library's `add_column` also refuses a column name the dataset already has. Column names are not modelled, so the success claim assumes the input has no `labels` column. A CSV that already has one makes main.py:11 fail, and the model does not show that.
- `print('done')` (main.py:13) is output only.
- No particular iteration order of `set(...)` is modelled. The order is a parameter, so the particular integer given to a category is not determined. Only its properties are.
- Shuffling and compute-device selection are not part of this model. They do not appear in `main.py`, and they depend on randomness and on the hardware.
