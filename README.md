# Dataset container: a verified model

This project models the `Dataset` class of a small Python utility for tabular data. The class
holds column labels, records made of text fields, and the index of the decision-class field.
Its operations are:

- ingestion: parse delimited lines, taking the first line as a header on request;
- inspection: return the labels, count the class values, and filter rows by class;
- partitioning: shuffle a copy of the records and cut it into training, test and validation parts;
- persistence: assemble the rows written to a CSV file.

The model has six modules:

- `Wrappers`: `Option` and `Result`. A `Failure` stands for a Python exception.
- `Strings`: `str.split` with a one-character separator, its inverse `join`, and `lstrip`, `rstrip` and `strip` over a set of characters. `Strings.Whitespace` is the set of characters Python's `str.isspace` accepts.
- `Indexing`: Python's rules for negative list indices, for slice bounds (negative bounds, clamping), for `int()` of a real number (truncation toward zero) and for `abs()`.
- `Counting`: the insertion-ordered dict that `get_number_of_classes` fills. `Dict` is that dict (its keys in insertion order and its entries), with `Get` for `get(v, 0)` and `Put` for item assignment. `Counted` ties it to the values counted so far. The resulting list is `Tally`: distinct values in first-occurrence order, each with its count.
- `Shuffling`: `random.shuffle` as the in-place Fisher–Yates loop it runs. The random source is a parameter `pick`: the draw for position `i` is `pick(i) % (i + 1)`.
- `Datasets`: the pure parts (line parsing, class fields, row filtering, cut points, save rows) and the class `Dataset`, whose fields `data`, `labels` and `classColumnIndex` its methods update.

Ingestion works on the lines of the file as the file iterator yields them. A file that cannot be
opened (an `OSError`, which `except IOError` catches) is the empty sequence of lines. That call
still sets the class index and changes nothing else. An `OSError` raised part-way through the
file is caught as well, and is the sequence of lines read before it. A decoding error is not an
`OSError`: it escapes `read_data` after the earlier lines have been stored, and the model has no
such outcome (see "Left out").

`ReadData` and `DataSplit` keep the source's default arguments: `header := true`,
`delimiter := ','`, `classColIndex := -1`, and proportions `0.7`, `0.2` and `0.1`.

Proportions are exact `real`s. The model follows the code's formulas, so its cuts can differ
from the code's, which uses IEEE doubles. For ten records and the default proportions
(0.7, 0.2, 0.1) the two agree: the model gives 7, 2 and 1 records
(`TenRecordsDefaultProportions`). In doubles, `10 * (0.7 + 0.2)` rounds to `9.0`, so the code
cuts at 7 and 9 as well. For thirty records they differ. The model gives 21, 6 and 3
(`ThirtyRecordsDefaultProportions`). In doubles, `0.7 + 0.2` is `0.8999999999999999` and
`30 * (0.7 + 0.2)` is just below 27, so the code cuts at 21 and 26 and gives 21, 5 and 4.

## Model

| member | source | states |
|---|---|---|
| Strings.Split | mini_projekt_WDNA_Bartosz_Fijalkowski.py:27 | `line.split(delimiter)` yields one field more than the text has delimiters, and no field contains the delimiter |
| Strings.OccurrencesZero | mini_projekt_WDNA_Bartosz_Fijalkowski.py:27 | the delimiter count of a text is zero exactly when the delimiter does not occur in it, so such a line is one field |
| Strings.JoinSplit | mini_projekt_WDNA_Bartosz_Fijalkowski.py:27 | joining the fields of a split with the delimiter gives back the text that was split |
| Strings.SplitJoin | mini_projekt_WDNA_Bartosz_Fijalkowski.py:27 | splitting a join gives back the fields when no field contains the delimiter (inverse of JoinSplit) |
| Strings.RStrip | mini_projekt_WDNA_Bartosz_Fijalkowski.py:27 | `rstrip('\n')` removes the longest run of newlines at the end and nothing else: the result is a prefix and does not end in a newline |
| Strings.LStrip | mini_projekt_WDNA_Bartosz_Fijalkowski.py:29 | removes the longest run of the given characters at the start: the result is a suffix and does not start with one of them |
| Strings.Strip | mini_projekt_WDNA_Bartosz_Fijalkowski.py:29 | a stripped label neither starts nor ends with whitespace; StripKeepsMiddle adds that it is the label with exactly its leading and trailing whitespace removed |
| Strings.StripKeepsMiddle | mini_projekt_WDNA_Bartosz_Fijalkowski.py:29 | `strip()` keeps one contiguous piece of the label whole, inner whitespace included, and drops only whitespace before and after it |
| Strings.StripsOnlyEnds | mini_projekt_WDNA_Bartosz_Fijalkowski.py:29 | the same for stripping any set of characters from both ends |
| Strings.StripFixedPoint | mini_projekt_WDNA_Bartosz_Fijalkowski.py:29 | `strip()` leaves a text unchanged exactly when it neither starts nor ends with whitespace (both directions) |
| Strings.StripIdempotent | mini_projekt_WDNA_Bartosz_Fijalkowski.py:29 | stripping a label twice is the same as stripping it once |
| Indexing.ResolveIndex | mini_projekt_WDNA_Bartosz_Fijalkowski.py:51 | `row[i]` can be read exactly when `-len <= i < len`; a negative `i` reads position `len + i`; otherwise IndexError |
| Indexing.SliceBound | mini_projekt_WDNA_Bartosz_Fijalkowski.py:81-83 | a slice bound counts from the end when negative and is clamped into `0..len` |
| Indexing.Slice | mini_projekt_WDNA_Bartosz_Fijalkowski.py:81-83 | `s[lo:hi]` holds the elements from the resolved `lo` up to the resolved `hi`, and is empty when the bounds cross |
| Indexing.SlicesCover | mini_projekt_WDNA_Bartosz_Fijalkowski.py:81-83 | `s[:i] + s[i:j] + s[j:] == s` for `0 <= i <= j` |
| Indexing.Truncate | mini_projekt_WDNA_Bartosz_Fijalkowski.py:78-79 | `int(x)` is the integer nearest zero within 1 of `x`: the floor for non-negative `x`, the ceiling for negative `x` |
| Indexing.Abs | mini_projekt_WDNA_Bartosz_Fijalkowski.py:70 | `abs(x)` is non-negative and equals `x` or `-x` |
| Counting.Dedup | mini_projekt_WDNA_Bartosz_Fijalkowski.py:49-53 | the dict's keys are exactly the values counted |
| Counting.DedupDistinct | mini_projekt_WDNA_Bartosz_Fijalkowski.py:49-53 | no value is a key twice |
| Counting.Pairs | mini_projekt_WDNA_Bartosz_Fijalkowski.py:53 | `items()` pairs each key, in key order, with its count |
| Counting.Get | mini_projekt_WDNA_Bartosz_Fijalkowski.py:52 | `d.get(x, 0)` is 0 for a key the dict does not hold |
| Counting.Put | mini_projekt_WDNA_Bartosz_Fijalkowski.py:52 | `d[x] = v` adds one key exactly when `x` was not a key |
| Counting.PutKeepsOrder | mini_projekt_WDNA_Bartosz_Fijalkowski.py:52 | `d[x] = v` keeps every existing key in its place, appends `x` when it is new, and makes `x` an entry |
| Counting.GetPut | mini_projekt_WDNA_Bartosz_Fijalkowski.py:52 | after `d[x] = v`, `d.get(x, 0)` is `v` and every other key reads as before |
| Counting.CountedEmpty | mini_projekt_WDNA_Bartosz_Fijalkowski.py:49 | the empty dict `{}` holds the counts of no values |
| Counting.CountOne | mini_projekt_WDNA_Bartosz_Fijalkowski.py:52 | `d[v] = d.get(v, 0) + 1` keeps the dict equal to the counts of the values seen, a new key going last. A key is present exactly when its value was seen before |
| Counting.CountStepKeys | mini_projekt_WDNA_Bartosz_Fijalkowski.py:52 | after one update the keys are the distinct values seen, in first-occurrence order, and exactly the entries' keys |
| Counting.CountStepEntries | mini_projekt_WDNA_Bartosz_Fijalkowski.py:52 | after one update every entry is the number of occurrences of its key |
| Counting.CountAllSnoc | mini_projekt_WDNA_Bartosz_Fijalkowski.py:50-52 | the dict after one more row is the dict before it with one more `d[v] = d.get(v, 0) + 1` |
| Counting.CountAllCounts | mini_projekt_WDNA_Bartosz_Fijalkowski.py:49-52 | the dict the loop builds from `{}` over any values holds the counts of those values |
| Counting.Items | mini_projekt_WDNA_Bartosz_Fijalkowski.py:53 | `items()` has one pair per key, in key order, each holding the key and its entry |
| Counting.CountedItems | mini_projekt_WDNA_Bartosz_Fijalkowski.py:53 | the list built from a dict that counted `vals` is the tally of `vals` |
| Counting.TallyEntries | mini_projekt_WDNA_Bartosz_Fijalkowski.py:49-53 | every counted value appears in the tally, every tally key is a counted value, and every count is its number of occurrences, at least 1 |
| Counting.TallyDistinct | mini_projekt_WDNA_Bartosz_Fijalkowski.py:53 | no two tally entries carry the same value |
| Counting.TallyTotal | mini_projekt_WDNA_Bartosz_Fijalkowski.py:49-53 | the counts of the tally add up to the number of values counted |
| Counting.TallyFirstOccurrenceOrder | mini_projekt_WDNA_Bartosz_Fijalkowski.py:49-53 | tally entries are ordered by where their value first occurs |
| Counting.Tally | mini_projekt_WDNA_Bartosz_Fijalkowski.py:53 | the (value, count) list has one entry per distinct value (`TallyEntries` and `TallyDistinct` give the entries) |
| Shuffling.Swap | mini_projekt_WDNA_Bartosz_Fijalkowski.py:76 | one shuffle step exchanges two positions and leaves every other position alone |
| Shuffling.Draw | mini_projekt_WDNA_Bartosz_Fijalkowski.py:76 | the draw for position `i` lies in `0..i`, as `randbelow(i + 1)` does |
| Shuffling.ShuffledIsPermutation | mini_projekt_WDNA_Bartosz_Fijalkowski.py:76 | shuffling keeps the length and the multiset of records |
| Shuffling.ShuffleInPlace | mini_projekt_WDNA_Bartosz_Fijalkowski.py:73-76 | the in-place Fisher–Yates loop leaves the array holding the shuffle of its old contents for the given draws |
| Shuffling.Shuffled | mini_projekt_WDNA_Bartosz_Fijalkowski.py:76 | the shuffle keeps the length, and leaves a list of at most one record as it is |
| Datasets.ParseLineFields | mini_projekt_WDNA_Bartosz_Fijalkowski.py:27 | a record joined back with the delimiter is its line without trailing newlines; its field count is that text's delimiter count plus one; no field holds the delimiter |
| Datasets.ParseLine | mini_projekt_WDNA_Bartosz_Fijalkowski.py:27 | a parsed line has one field more than the line, without its trailing newlines, has delimiters |
| Datasets.TrimLabels | mini_projekt_WDNA_Bartosz_Fijalkowski.py:29 | one label per header field, in order, each the field stripped (see Strip and StripKeepsMiddle) |
| Datasets.TrimLabelsKeepsStripped | mini_projekt_WDNA_Bartosz_Fijalkowski.py:29 | labels without surrounding whitespace are kept unchanged |
| Datasets.Ingest | mini_projekt_WDNA_Bartosz_Fijalkowski.py:26-31 | labels are read exactly when the header flag is set and there is a first line; every other line gives one record |
| Datasets.Field | mini_projekt_WDNA_Bartosz_Fijalkowski.py:51 | `row[i]` is the field at `i` for `i >= 0` and the field at `len(row) + i` for negative `i` |
| Datasets.IngestStep | mini_projekt_WDNA_Bartosz_Fijalkowski.py:26-31 | one more line read: the first line of a file with a header sets the labels and adds no record; any other line appends its record and keeps the labels |
| Datasets.IngestLines | mini_projekt_WDNA_Bartosz_Fijalkowski.py:26-31 | with the header flag and a first line, labels are that line's fields, each stripped; every other line becomes one record, in file order. Without the flag every line is a record |
| Datasets.MatchingRows | mini_projekt_WDNA_Bartosz_Fijalkowski.py:121 | every row kept is one of the rows and has class field equal to the value |
| Datasets.MatchingRowsInOrder | mini_projekt_WDNA_Bartosz_Fijalkowski.py:121 | the kept rows are a subsequence of the rows: their order is kept |
| Datasets.MatchingRowsMultiplicity | mini_projekt_WDNA_Bartosz_Fijalkowski.py:121 | each row of the class is kept as many times as it occurs; no other row is kept |
| Datasets.MatchingRowsEmpty | mini_projekt_WDNA_Bartosz_Fijalkowski.py:121 | no row is kept exactly when no row has the class (both directions) |
| Datasets.MatchingRowsCount | mini_projekt_WDNA_Bartosz_Fijalkowski.py:121 | the number of rows of class `v` equals the number of times `v` occurs among the class values |
| Datasets.ClassCountsKeys | mini_projekt_WDNA_Bartosz_Fijalkowski.py:49-53 | the class counts list each row's class value exactly once, and list no other value, in first-occurrence order |
| Datasets.ClassCountsSizes | mini_projekt_WDNA_Bartosz_Fijalkowski.py:49-53 | each class count is at least 1 and equals the number of rows `get_rows_by_class` returns for that class; the counts sum to `len(data)` |
| Datasets.ScaledCutsOrdered | mini_projekt_WDNA_Bartosz_Fijalkowski.py:78-79 | with non-negative proportions, both cut points are non-negative and the training cut comes no later than the test cut |
| Datasets.CutIndex | mini_projekt_WDNA_Bartosz_Fijalkowski.py:78-79 | `int(n * pct)` is not negative for a non-negative proportion, at most 0 for a non-positive one, and at most `n` for a proportion up to 1 |
| Datasets.CutIndexesOrdered | mini_projekt_WDNA_Bartosz_Fijalkowski.py:78-79 | with non-negative proportions each cut is the floor of its scaled proportion, and the training cut comes first |
| Datasets.Partition | mini_projekt_WDNA_Bartosz_Fijalkowski.py:78-83 | no part is longer than the shuffled list |
| Datasets.PartitionEnds | mini_projekt_WDNA_Bartosz_Fijalkowski.py:81-83 | for any proportions the training part is a prefix and the validation part a suffix of the shuffled list |
| Datasets.PartitionSizes | mini_projekt_WDNA_Bartosz_Fijalkowski.py:78-83 | with non-negative training and test proportions, `train + test + valid` is the shuffled copy, `len(train) = min(n, floor(n*train_pct))`, `len(train) + len(test) = min(n, floor(n*(train_pct+test_pct)))`, and validation takes the rest |
| Datasets.CutsCover | mini_projekt_WDNA_Bartosz_Fijalkowski.py:81-83 | cutting at `0 <= c1 <= c2` gives three consecutive pieces that make up the records, of sizes `min(n, c1)`, then up to `min(n, c2)`, then the rest |
| Datasets.PartitionValidIsRest | mini_projekt_WDNA_Bartosz_Fijalkowski.py:83 | for any proportions, validation is everything from the resolved test cut to the end |
| Datasets.TenRecordsDefaultProportions | mini_projekt_WDNA_Bartosz_Fijalkowski.py:78-83 | in exact arithmetic, ten records cut at 0.7 and 0.2 give parts of 7, 2 and 1 |
| Datasets.ThirtyRecordsDefaultProportions | mini_projekt_WDNA_Bartosz_Fijalkowski.py:78-83 | in exact arithmetic, thirty records cut at 0.7 and 0.2 give parts of 21, 6 and 3 |
| Datasets.HeaderAndRows | mini_projekt_WDNA_Bartosz_Fijalkowski.py:97-99 | the written rows are the labels followed by the given rows when there are labels, and the given rows alone otherwise, in order |
| Datasets.ParseCsvLine | mini_projekt_WDNA_Bartosz_Fijalkowski.py:96-99 | reading back the line written for a row that needs no quoting gives that row |
| Datasets.CsvLine | mini_projekt_WDNA_Bartosz_Fijalkowski.py:96-99 | the line written for a plain row ends in a newline and holds no other newline |
| Datasets.SaveThenRead | mini_projekt_WDNA_Bartosz_Fijalkowski.py:87-99 | saving labels and rows and reading them back (comma delimiter, header flag set when there are labels) gives the same labels and rows, when nothing needs quoting and labels are already stripped |
| Datasets.Dataset.constructor | mini_projekt_WDNA_Bartosz_Fijalkowski.py:7-10 | a new dataset has no records and no labels, and its class field is the last one (-1) |
| Datasets.Dataset.ReadData | mini_projekt_WDNA_Bartosz_Fijalkowski.py:12-33 | sets the class-field index to the argument and appends the parsed records to the old `data`, which is never cleared. Labels are replaced only when a header line is read |
| Datasets.Dataset.GetLabels | mini_projekt_WDNA_Bartosz_Fijalkowski.py:35-41 | returns the stored labels themselves |
| Datasets.Dataset.GetNumberOfClasses | mini_projekt_WDNA_Bartosz_Fijalkowski.py:43-53 | raises IndexError exactly when some row has no class field; otherwise returns the tally of the rows' class values |
| Datasets.Dataset.DataSplit | mini_projekt_WDNA_Bartosz_Fijalkowski.py:55-85 | raises the sum-carrying error exactly when `abs(sum - 1.0) > 1e-6`; otherwise cuts the shuffled copy. With non-negative training and test proportions the parts concatenate to the shuffled copy and hold exactly the records (as a multiset). `data` is not modified |
| Datasets.Dataset.SaveRows | mini_projekt_WDNA_Bartosz_Fijalkowski.py:87-99 | the rows passed to the CSV writer: header row first exactly when labels are non-empty, then the given rows in order |
| Datasets.Dataset.GetRowsByClass | mini_projekt_WDNA_Bartosz_Fijalkowski.py:114-121 | raises IndexError exactly when some row has no class field; otherwise returns the matching rows, which are empty exactly when no row has the requested class |

## Left out

- Decoding errors: a file that is not valid in the given encoding makes the iterator raise `UnicodeDecodeError`, which `except IOError` does not catch. `read_data` then raises after the earlier records have been appended and the labels set. `Dataset.ReadData` has no failure outcome and does not model this.
- File I/O: `open`, the `encoding` argument, the newline translation of text mode, the `IOError` handlers with their messages, and the status print of `save_to_csv`. The model takes the file's lines as input and returns the rows to write.
- CSV quoting and escaping by `csv.writer`: this is library code. `CsvLine` describes the writer's output only for rows that need no quoting (`PlainRow`), so `SaveThenRead` is stated only for those rows. The writer always uses a comma, whatever delimiter was used for reading.
- Randomness: `random.seed` and the generator behind `random.shuffle` are not modelled. The draws are the parameter `pick`. Given the same draws the split is the same, because the model is deterministic; nothing is said about how a seed produces draws or about a uniform distribution.
- IEEE floating point: proportions and the products `n * pct` are exact reals, so cut points can differ from the code's by rounding (see above).
- Delimiter: modelled as one character. Python accepts any non-empty string as the separator.
- Aliasing: records and labels are values. `data.copy()` is a shallow copy and `get_labels` returns the list itself; in the model, changing a returned row or label list cannot affect the dataset, while in the code it does.
- Datasets.PartitionSizes: sizes and coverage are stated only for non-negative training and test proportions. Negative ones (truncation toward zero, slices counted from the end) are modelled in `Partition` and `PartitionValidIsRest`, but not characterised further.
- Datasets.Dataset.DataSplit: the permutation and concatenation guarantees hold only for non-negative training and test proportions, for the same reason.
- `print_data` (console output), the `__main__` demonstration block and the driver script `wczytanie_modulu_mini_projekt.py`. `Datasets.SplitScenario` is a client of the model that replays a split by hand.
