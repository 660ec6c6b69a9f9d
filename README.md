# Cancer-risk / county-centres join

A Dafny model of the table join at the heart of the cancer-risk visualisation
scripts. The scripts read a cancer-risk table and a table of USA county
centres. They index the centres table by FIPS county code with `make_dict`.
Then `merge_csv_files` joins each cancer-risk row to its county centre. It
reports the cancer-risk rows with no centre, then the centre codes that no
cancer-risk row carries.

The three scripts repeat the same code. `make_dict` is in
`cancerviz_join_files.py:42-54`, `cancerviz.py:46-58` and
`cancerviz_visualize_data.py:44-56`. The join is in
`cancerviz_join_files.py:88-104` and `cancerviz.py:92-108`. One model serves
all of them. Each row of the table below cites one copy, and its last column
names the matching lines in the other copies.

Modules:

- `Rows` (`rows.dfy`): rows and tables; `Cell(row, col)` is Python's `row[col]`, negative columns included.
- `Lists` (`lists.dfy`): `list.remove` (`RemoveFirst`), the position it deletes at (`FirstIndex`), and orderings by first appearance.
- `Dicts` (`dicts.dfy`): a Python `dict` as a map plus its key insertion order. `Put` is `d[k] = v`.
- `DictBuilder` (`make_dict.dfy`): `make_dict`. `MakeDict` is the specification, `BuildDict` the loop.
- `CsvMerge` (`merge.dfy`): both passes of `merge_csv_files`. `Joined`, `Unmatched` and `Orphans` are the specifications. The loops are `JoinRows` and `ReportOrphans`, and `MergeTables` composes them.

Each loop is a method whose `ensures` equates its result with a
prefix-recursive specification function. The properties are lemmas about those
functions. The console messages are returned as two sequences: the unmatched
rows, and the unmatched codes in dict order.

Two details of the code shape the model:

- `make_dict` deletes the first element equal to the key (`copy.remove(key)`), not the field at `key_col`. `RemovalIsByValue` shows a row where the two differ.
- The second pass tests each dict key against the list of all cancer-risk codes (`Column(cancer, 2)`).

Dafny sequences are values, so the model cannot change an input row. The
source gets the same guarantee from `list(row)` and `idx + ...`, which build new
lists.

## Model

| member | source | states |
|---|---|---|
| `Rows.Cell` | cancerviz_join_files.py:50 | `row[key_col]` (and `idx[2]` at line 91): a non-negative column reads that position, a negative one counts from the end of the row, as in Python (same at cancerviz.py:54, 95, cancerviz_visualize_data.py:52). |
| `Rows.Column` | cancerviz_join_files.py:100 | The `cancer_codes` comprehension: one code per cancer row, in table order. `MakeDictKeys` and `MergeReports` state what it is used for (same at cancerviz.py:104). |
| `Lists.FirstIndex` | cancerviz_join_files.py:52 | The position `list.remove` deletes at: it holds `x`, and no earlier position does (same at cancerviz.py:56, cancerviz_visualize_data.py:54). |
| `Lists.RemoveFirst` | cancerviz.py:56 | `copy.remove(key)` on a list holding `key` leaves one element fewer. |
| `Lists.RemoveFirstDeletes` | cancerviz_visualize_data.py:54 | `remove(x)` deletes exactly the element at the first position holding `x` (`FirstIndex`) and keeps the rest in order. |
| `Dicts.Dict.Put` | cancerviz.py:57 | `new_dict[key] = copy`: its contract says that afterwards `key` maps to `copy`. Its body keeps a present key in its place in the key order and puts a new key last. `PutValid` states the invariant this keeps (same at cancerviz_join_files.py:53, cancerviz_visualize_data.py:55). |
| `Dicts.Dict.PutValid` | cancerviz_join_files.py:53 | `new_dict[key] = copy` keeps the key order listing every key of the dict exactly once (same at cancerviz.py:57, cancerviz_visualize_data.py:55). |
| `DictBuilder.Entry` | cancerviz_join_files.py:51-52 | `copy = list(row); copy.remove(key)`: the stored value is one field shorter than the row. `EntryShape` states which field goes (same at cancerviz.py:55-56, cancerviz_visualize_data.py:53-54). |
| `DictBuilder.BuildDict` | cancerviz_join_files.py:42-54 | The loop of `make_dict` returns exactly `MakeDict(table, key_col)`, both the key order and the entries (same code at cancerviz.py:46-58, cancerviz_visualize_data.py:44-56). |
| `DictBuilder.MakeDictValid` | cancerviz_visualize_data.py:50-56 | The result's key order lists each key of its map exactly once. An empty table gives an empty dict. |
| `DictBuilder.MakeDictKeys` | cancerviz_join_files.py:48-54 | A value is a key of the result exactly when some row has it in column `key_col` (same at cancerviz.py:52-58, cancerviz_visualize_data.py:50-56). |
| `DictBuilder.MakeDictOrder` | cancerviz.py:52-58 | Keys are listed in the order in which each first appears in column `key_col`. A repeated key keeps its first place (same at cancerviz_join_files.py:48-54). |
| `DictBuilder.MakeDictLastWins` | cancerviz_join_files.py:52-53 | If no later row shares row `i`'s key, row `i` supplies that key's value: later rows overwrite earlier ones (same at cancerviz.py:56-57, cancerviz_visualize_data.py:55). |
| `DictBuilder.MakeDictValues` | cancerviz_visualize_data.py:52-55 | Every stored value is the entry of the last row carrying its key, and is one field shorter than that row (same at cancerviz.py:54-57). |
| `DictBuilder.EntryShape` | cancerviz.py:54-57 | A stored value is the row minus one field: the first one equal to the key, at or before column `key_col`. If the key value occurs only in column `key_col`, the value is the row without that column (same at cancerviz_join_files.py:50-53). |
| `DictBuilder.RemovalIsByValue` | cancerviz_visualize_data.py:52-54 | For `[2, 1, 2]` keyed on column 2, the stored value is `[1, 2]`. That is not the row without column 2, and it still holds the key value. |
| `DictBuilder.MakeDictSnoc` | cancerviz_join_files.py:49-53 | One more row at the end of the table is one more dict assignment of its key and entry. |
| `DictBuilder.MakeDictTable1Col0` | cancerviz_join_files.py:60-61 | `make_dict([[1,2],[3,4],[5,6]], 0)` is `{1: [2], 3: [4], 5: [6]}` (same at cancerviz.py:64-65). |
| `DictBuilder.MakeDictTable1Col1` | cancerviz_join_files.py:62 | `make_dict([[1,2],[3,4],[5,6]], 1)` is `{2: [1], 4: [3], 6: [5]}` (same at cancerviz.py:66). |
| `DictBuilder.MakeDictTable2Col1` | cancerviz.py:67-68 | `make_dict([[1,2,3],[2,4,6],[3,6,9]], 1)` is `{2: [1,3], 4: [2,6], 6: [3,9]}` (same at cancerviz_join_files.py:63-64). |
| `DictBuilder.MakeDictTable2Col2` | cancerviz.py:69 | `make_dict([[1,2,3],[2,4,6],[3,6,9]], 2)` is `{3: [1,2], 6: [2,4], 9: [3,6]}` (same at cancerviz_join_files.py:65). |
| `CsvMerge.JoinRows` | cancerviz_join_files.py:88-95 | The first-pass loop returns exactly the joined table `Joined` and the reported rows `Unmatched` (same at cancerviz.py:92-99). |
| `CsvMerge.ReportOrphans` | cancerviz_join_files.py:99-103 | The second-pass loop returns exactly the dict keys absent from the cancer codes, in key order (same at cancerviz.py:103-107). |
| `CsvMerge.MergeTables` | cancerviz.py:88-108 | `merge_csv_files` without its I/O returns exactly `Merge(cancer, centers)`: it builds the dict on column 0, joins on column 2, and reconciles against the column-2 codes (same at cancerviz_join_files.py:84-104). |
| `CsvMerge.PositionsSpec` | cancerviz.py:94-99 | The positions of matched (or of unmatched) cancer rows are increasing and are exactly the rows whose code is (or is not) a dict key. |
| `CsvMerge.JoinedRows` | cancerviz_join_files.py:89-93 | Joined row `j` is matched row `Positions[j]` followed by the dict value of its code. Joined rows keep cancer-table order and cover every matched row (same at cancerviz.py:93-97). |
| `CsvMerge.UnmatchedRows` | cancerviz_join_files.py:94-95 | Reported row `j` is unmatched row `Positions[j]`, whose code is no dict key. The reports keep cancer-table order and cover every unmatched row (same at cancerviz.py:98-99). |
| `CsvMerge.JoinPartition` | cancerviz.py:94-99 | `len(joined) + len(unmatched rows) == len(cancer_table)` (same at cancerviz_join_files.py:90-95). |
| `CsvMerge.JoinSnoc` | cancerviz.py:94-99 | One more cancer row extends exactly one of the two first-pass outputs, chosen by whether its code is a key. |
| `CsvMerge.OrphansMembers` | cancerviz.py:104-107 | A code is reported exactly when it is a key missing from the cancer codes (same at cancerviz_join_files.py:100-103). |
| `CsvMerge.OrphansOrder` | cancerviz_join_files.py:100-103 | For distinct keys, the reported codes keep the dict's key order (same at cancerviz.py:104-107). |
| `CsvMerge.MergeJoinedRow` | cancerviz.py:90-97 | Every joined row is some cancer row followed by the stored entry of the last centres row with the same FIPS code. Its length is the sum of the two row lengths minus 1 (same at cancerviz_join_files.py:86-93). |
| `CsvMerge.MergeReports` | cancerviz_join_files.py:86-103 | Over the two input tables: the counts add up. A cancer row is reported exactly when no centres row has its code. The code report is exactly the centres codes that no cancer row carries, ordered by first appearance in the centres table (same at cancerviz.py:90-107). |
| `CsvMerge.MergeEmptyTables` | cancerviz_join_files.py:100-103 | An empty cancer table reports every dict key and joins nothing. An empty centres table reports every cancer row and joins nothing (same at cancerviz.py:104-107). |
| `CsvMerge.OrphansNoCodes` | cancerviz.py:105-107 | Against no cancer codes, every key is reported. |
| `CsvMerge.JoinEmptyDict` | cancerviz.py:94-99 | Against an empty dict, nothing is joined and every cancer row is reported. |
| `CsvMerge.MergeAnomalyExample` | cancerviz_join_files.py:112-120 | The two anomalies the notes describe: a cancer row for 51560 with no centre is reported, a centre for 08014 with no cancer row is reported, and a county present in both is joined (same notes at cancerviz.py:116-124). |

## Left out

- `read_csv_file`, `write_csv_file` and `print_table`: file and console I/O. The tables are parameters, and the joined table is returned, not written.
- The `print` calls of the two passes: each becomes an element of a returned sequence (`Report.unmatchedRows`, `Report.unmatchedCodes`). The message text is not modelled.
- The module-level calls `merge_csv_files(...)` and `draw_cancer_risk_map(...)`: they act only when the script is run.
- `draw_cancer_risk_map`, `create_riskmap` and `compute_county_cirle`, with the plotting constants: floating point, `math.log10` and matplotlib. The `table[: num_counties]` truncation inside the plot loop (`None` keeps every row) belongs to that code.
- Shared references: Dafny sequences are values, so the model has no aliasing between an input row and its copy.
- Python's `ValueError` from `list.remove`: `make_dict` only removes a value taken from the row itself, so `RemoveFirst` and `FirstIndex` require the value to be present.
- Too-short rows: indexing them raises `IndexError` in the source. The model requires every cancer row to have a column 2 and every `make_dict` row to have column `key_col` (`Indexable`). It does not model the crash.
- CsvMerge.OrphansOrder: requires distinct keys. Dict keys always are distinct (`MakeDictValid`), and `MergeReports` states the result without that requirement.
- Field values are generic values compared with `==`. Python's hash-based dict lookup is modelled by map membership.
