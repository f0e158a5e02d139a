# phpOlap JSON layout, modelled in Dafny

phpOlap's `JsonLayout` turns an OLAP result set (a column axis, a row axis
and a row-major cell buffer) into a list of flat records for JSON output.
This project models that flattener and proves what it computes:

- `FriendlyNames` — `friendlyName`: delete `[`, `]`, `*`, lower-case
  (ASCII), turn `.` into `_`; written as the source does it, with
  `explode`/`implode`, and proved equal to a character-wise reference.
- `Records` — the record is a PHP array: an ordered map where assigning an
  existing key overwrites its value in place and a new key is appended.
  Modelled as an association list with `Assign`; `Apply` folds a list of
  assignments, and lemmas tie it to two references: keys in order of first
  occurrence (`FirstOccurrences`), values from the last write (`LastWrite`).
- `Flattening` — the result set as immutable datatypes (`Member`,
  `ResultSet`, cell values as `Option<V>` with `None` for `null`) and the
  functions the layout computes: `ColumnNames`, `RowHeaders`, `RowRecord`
  (one row) and `Flatten` (the whole list), with lemmas on the index
  arithmetic, keys, values, overrides, a short buffer and a worked scenario.
- `JsonLayouts` — the `JsonLayout` class: the result set and the two caches
  `columns` and `rows` (`None` until first use), the methods `GetColumns`,
  `GetRows`, `BuildResult`, `BuildResultList` and `Generate`, each proved to
  compute the corresponding `Flattening` function; `AssembleRecord` holds
  `buildResult`'s two assignment loops.

The type parameter `V` stands for whatever scalar a cell's `getValue()`
returns; a cell whose value is `null` is `None`.

## Model

| member | source | states |
|---|---|---|
| `FriendlyNames.LowerChar` | src/phpOlap/Layout/JsonLayout.php:151 | `strtolower` on one character: A–Z shift by 32 to a–z, every other character is unchanged, no upper-case letter remains |
| `FriendlyNames.StripBrackets` | src/phpOlap/Layout/JsonLayout.php:150 | the `str_replace` step leaves no `[`, `]` or `*` and never lengthens the name |
| `FriendlyNames.Explode` | src/phpOlap/Layout/JsonLayout.php:152 | `explode(".")` yields at least one part and no part contains the delimiter |
| `FriendlyNames.ImplodeExplode` | src/phpOlap/Layout/JsonLayout.php:152 | `implode("_", explode(".", s))` is `s` with every `.` replaced by `_` |
| `FriendlyNames.FriendlyNameSteps` | src/phpOlap/Layout/JsonLayout.php:149-155 | `friendlyName` equals the character-wise composition strip, lower-case, dots to underscores |
| `FriendlyNames.FriendlyNameIsFriendly` | src/phpOlap/Layout/JsonLayout.php:149-155 | the output holds no `[`, `]`, `*`, `.` and no upper-case ASCII letter |
| `FriendlyNames.FriendlyNameFixesFriendly` | src/phpOlap/Layout/JsonLayout.php:149-155 | a name already free of those characters is returned unchanged |
| `FriendlyNames.FriendlyNameIdempotent` | src/phpOlap/Layout/JsonLayout.php:149-155 | normalising twice gives the same as normalising once |
| `FriendlyNames.FriendlyNameOfQualified` | src/phpOlap/Layout/JsonLayout.php:149-155 | a two-level name `[a].[b]` with plain parts becomes lower(a) `_` lower(b) |
| `FriendlyNames.FriendlyNameExample` | src/phpOlap/Layout/JsonLayout.php:149-155 | `[Store].[USA]` becomes `store_usa` |
| `FriendlyNames.FriendlyNameNotInjective` | src/phpOlap/Layout/JsonLayout.php:149-155 | two different names (`[a].b`, `a.[b]`) normalise to the same identifier |
| `Records.AssignKeys` | src/phpOlap/Layout/JsonLayout.php:128-137 | a PHP array assignment keeps an existing key at its position and appends a new key at the end |
| `Records.AssignLookup` | src/phpOlap/Layout/JsonLayout.php:128-137 | after the assignment the key holds the new value and every other key holds its old value |
| `Records.AssignNew` | src/phpOlap/Layout/JsonLayout.php:128-137 | assigning a key the array does not hold appends exactly that pair |
| `Records.ApplyPrefix` | src/phpOlap/Layout/JsonLayout.php:128-137 | building from one more write is one more assignment on the record built so far |
| `Records.ApplyKeys` | src/phpOlap/Layout/JsonLayout.php:128-137 | the keys of the record built by a sequence of assignments are the assigned keys, each once, in order of first assignment |
| `Records.ApplyLookup` | src/phpOlap/Layout/JsonLayout.php:128-137 | every key holds the value of the last assignment to it (last write wins) |
| `Records.ApplyDistinct` | src/phpOlap/Layout/JsonLayout.php:128-137 | assignments to pairwise distinct keys build the record that lists them in order |
| `Records.FirstOccurrencesSpec` | src/phpOlap/Layout/JsonLayout.php:128-137 | the key order holds no key twice and exactly the assigned keys |
| `Records.FirstOccurrencesOfDistinct` | src/phpOlap/Layout/JsonLayout.php:128-137 | keys that are already distinct keep their order exactly |
| `Records.LastWriteAppend` | src/phpOlap/Layout/JsonLayout.php:128-137 | later assignments (the column loop) override earlier ones (the header loop) key by key |
| `Records.LastWriteAt` | src/phpOlap/Layout/JsonLayout.php:128-137 | an assignment that no later assignment to the same key follows is the value that stays |
| `Records.LastWriteAbsent` | src/phpOlap/Layout/JsonLayout.php:128-137 | a key nobody assigns holds nothing |
| `Flattening.GridIndexInRange` | src/phpOlap/Layout/JsonLayout.php:125 | for row `i < R` and column `j < C`, the offset `C*i + j` is below `R*C`, so a full buffer never reads out of range |
| `Flattening.GridIndexUnique` | src/phpOlap/Layout/JsonLayout.php:125 | distinct (row, column) pairs read distinct buffer offsets |
| `Flattening.RowRecordKeys` | src/phpOlap/Layout/JsonLayout.php:128-137 | a record's keys are the header names followed by the column names, each kept once at its first position |
| `Flattening.RowRecordColumn` | src/phpOlap/Layout/JsonLayout.php:133-137 | column `j` holds the cell at `C*rowIndex + j`, or `null` outside the buffer, unless a later column takes the same name; it overrides a header of that name |
| `Flattening.RowRecordDuplicateColumns` | src/phpOlap/Layout/JsonLayout.php:133-137 | two columns with one name give a single key holding the later column's cell |
| `Flattening.RowRecordHeader` | src/phpOlap/Layout/JsonLayout.php:128-131 | a header name that no column and no later header takes holds the member's caption verbatim |
| `Flattening.RowHeaderNames` | src/phpOlap/Layout/JsonLayout.php:129 | re-normalising a header name built by `getRows` gives the level name normalised once |
| `Flattening.RowRecordMissingLastCell` | src/phpOlap/Layout/JsonLayout.php:133-137 | with the row's last cell missing, its last column is `null` and every other key is as if the cell were present |
| `Flattening.FlattenAt` | src/phpOlap/Layout/JsonLayout.php:106-107 | the list has one record per row tuple and record `i` is `buildResult(i)` |
| `Flattening.FlattenNoRows` | src/phpOlap/Layout/JsonLayout.php:102-111 | no row tuples give an empty list, whatever the column axis holds |
| `Flattening.FlattenKeys` | src/phpOlap/Layout/JsonLayout.php:128-137 | there is one record per row tuple, and record `i` has the row's level names then the column names as keys, each once at its first position |
| `Flattening.FlattenFullGrid` | src/phpOlap/Layout/JsonLayout.php:125-137 | with an `R*C` buffer the offset `C*i + j` is inside the buffer, and column `j` of record `i` (unless a later column takes its name) holds that cell |
| `Flattening.FlattenKeysDistinct` | src/phpOlap/Layout/JsonLayout.php:128-137 | when no two names collide, record `i` has exactly `|tuple i| + C` keys: the level names followed by the column names |
| `Flattening.FlattenMissingLastCellEarlierRows` | src/phpOlap/Layout/JsonLayout.php:102-137 | a buffer one cell short leaves every record but the last as the full buffer gives it |
| `Flattening.FlattenMissingLastCell` | src/phpOlap/Layout/JsonLayout.php:133-137 | a buffer one cell short makes the last record's last column `null` and leaves its other keys as the full buffer gives them |
| `Flattening.FlattenScenario` | src/phpOlap/Layout/JsonLayout.php:102-140 | rows `CA`, `NY` of level `store`, columns `sales`, `profit`, buffer `[100, 10, 200, 20]` give `{store: CA, sales: 100, profit: 10}`, `{store: NY, sales: 200, profit: 20}` |
| `JsonLayouts.JsonLayout.constructor` | src/phpOlap/Layout/JsonLayout.php:37-40 | the layout keeps the result set and starts with both caches unset |
| `JsonLayouts.JsonLayout.GetColumns` | src/phpOlap/Layout/JsonLayout.php:55-67 | one entry per column tuple in order, entry `i` the normalised unique name of tuple `i`'s first member, duplicates kept; the cache is filled, and a filled cache is returned unchanged |
| `JsonLayouts.JsonLayout.GetRows` | src/phpOlap/Layout/JsonLayout.php:74-95 | one list per row tuple in order, one `{name, caption}` per member with the level name normalised and the caption verbatim; the cache is filled, and a filled cache is returned unchanged |
| `JsonLayouts.AssembleRecord` | src/phpOlap/Layout/JsonLayout.php:122-139 | the two assignment loops build exactly `RowRecord`: header writes, then one write per column of the cell at `count(columns) * rowIndex + j` or `null` |
| `JsonLayouts.JsonLayout.BuildResult` | src/phpOlap/Layout/JsonLayout.php:120-140 | reads both caches (filling them) and returns the record of row `rowIndex` |
| `JsonLayouts.JsonLayout.BuildResultList` | src/phpOlap/Layout/JsonLayout.php:102-111 | returns `Flatten`: one record per row tuple, record `i` being `buildResult(i)`; afterwards the row cache holds the row headers and, when there is a row tuple, the column cache holds the column names; with no row tuple the column cache is left untouched |
| `JsonLayouts.JsonLayout.Generate` | src/phpOlap/Layout/JsonLayout.php:45-48 | returns the record list that `json_encode` serialises, equal to `Flatten` of the result set, and leaves the caches filled as `BuildResultList` does |

## Left out

- `json_encode` in `generate` (src/phpOlap/Layout/JsonLayout.php:47): an external serialiser; `Generate` returns the record list.
- PHP's conversion of integer-like string keys (`"12"`) to integer keys: record keys stay strings; this can change how `json_encode` renders a record whose keys are all such numbers.
- `strtolower` is modelled over ASCII only (its behaviour since PHP 8.2); locale-dependent and multibyte lower-casing are not. Strings are sequences of characters, not bytes.
- PHP's dynamic typing of cell values: the type parameter `V` stands for them, `None` for `null`.
- The result set and member classes (`ResultSetInterface`, members, cells) are replaced by immutable datatypes whose fields are the getters; a getter returning something other than an array is not modelled.
- A column tuple without members makes `$rawColumn[0]` fail in PHP; the model requires every column tuple to have a first member wherever `getColumns` runs (`HasFirstMembers`), and `BuildResultList` requires it only when there is a row tuple, since otherwise `getColumns` is never called.
- `JsonLayouts.JsonLayout.BuildResult` requires `rowIndex < count(rows)`: its only caller, `buildResultList`, never passes anything else.
- Each entry of the data set is modelled as its `getValue()`: an in-range entry whose value is `null` and an out-of-range index both give `null`, as in the source.
- The axis sets and the data set are modelled as sequences with keys `0..n-1`; PHP arrays with other keys are not.
