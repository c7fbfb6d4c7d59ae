# Employee roster, modelled and verified in Dafny

This project models the in-memory employee roster of the console program `main.go`
and proves what its operations promise. A roster is a slice of records, each with a
full name, a position and years of experience. Five operations act on it:

- `addEmployee` appends a record.
- `removeEmployee` splices out the first record with a given full name.
- `sortEmployees` and `sortPositions` stable-sort the roster in place, by the
  lower-cased full name or the lower-cased position.
- `calculatePosition` maps every position to its mean experience.
- `findPosition` picks a position with the smallest mean and lists its employees.

The project has five modules:

- `Text` (text.dfy): `strings.ToLower` as ASCII lower-casing, and Go's `<` on strings as
  lexicographic `Less`, with the lemmas that make it a strict total order.
- `Records` (records.dfy): the `Employee` record, `Option`, and the two sort keys.
- `StableSort` (stable_sort.dfy): a generic stable sort. It has two parts:
  - the specification function `SortedBy`, with proofs that it is sorted, a permutation,
    stable, unique among stable sorts, and idempotent;
  - an in-place insertion sort on an array, `InsertionSort`, proved equal to `SortedBy`.
- `EmployeeRoster` (roster.dfy): the slice `Employees` as a class with a field `list`.
  Add and remove reassign it, as the Go code reassigns `*employees` (main.go:23, 35).
  The two sorts copy it into an array, sort the array in place, and store the result
  back; in Go, `sort.SliceStable` reorders the slice's backing array in place
  (main.go:52, 64) and reassigns nothing.
- `PositionStats` (positions.dfy):
  - the specification `Averages` and the two-loop method `CalculatePosition` proved
    equal to it;
  - the selection `FindPosition`;
  - `ScanMin`, the selection loop exactly as written, with its `-1` sentinel.

Go's map iteration order is unspecified. The methods model it with a choice (`:|`)
among the keys not yet visited, so their contracts hold for every order. `ScanMin`
takes the visiting order as a parameter instead.

Experience is a Go `float64`; here it is an exact `real`.

Two facts about the code matter for the model:

- The sorts lower-case both keys with `strings.ToLower` and compare them with Go's `<`
  (main.go:53, 65).
- `addEmployee` accepts any float64, including negative values (main.go:22-28). The
  model accepts any real, and that is what exposes the finding below.

## Model

| member | source | states |
|---|---|---|
| Text.LessIrreflexive | main.go:53 | no string is below itself under Go's `<` |
| Text.LessTransitive | main.go:53 | Go's `<` on strings is transitive |
| Text.LessTotal | main.go:53 | any two strings are equal or ordered one way or the other |
| EmployeeRoster.GoStringOrder | main.go:52-54 | the comparator both sorts use is a strict total order on keys |
| EmployeeRoster.FirstMatch | main.go:32-33 | the index found is of a record with exactly that name, and no earlier record has that name; without a result no record has it |
| EmployeeRoster.RemoveSoleMatch | main.go:31-37 | when exactly one record has the name, that record is the one removed, the length drops by one and no record with the name remains |
| EmployeeRoster.Employees.constructor | main.go:163 | a fresh roster is empty |
| EmployeeRoster.Employees.AddEmployee | main.go:22-28 | the new roster is the old one plus the given record at the end: one longer, earlier records unchanged, nothing deduplicated |
| EmployeeRoster.Employees.RemoveEmployee | main.go:31-39 | the first record whose name equals the key exactly is spliced out and the rest keep their order; without a match the roster is unchanged |
| EmployeeRoster.Employees.SortEmployees | main.go:51-54 | the new roster is the stable sort of the old one by lower-cased full name: sorted, a permutation, equal-key records in input order |
| EmployeeRoster.Employees.SortPositions | main.go:63-66 | the new roster is the stable sort of the old one by lower-cased position |
| StableSort.WithKeyMembers | main.go:52-54 | the group with key k holds exactly the members of the sequence whose key is k, in both directions |
| StableSort.InsertPermutes | main.go:52-54 | inserting x into a sorted prefix adds exactly x to the multiset of elements |
| StableSort.InsertKeepsSorted | main.go:52-54 | inserting into a sorted sequence keeps it sorted |
| StableSort.InsertKeepsGroups | main.go:52-54 | inserting x after every element with an equal key keeps each key group in input order |
| StableSort.SortedBySorted | main.go:52-54 | the stable sort's result is sorted by the comparator |
| StableSort.SortedByPermutes | main.go:52-54 | the stable sort's result is a permutation of its input |
| StableSort.SortedByKeepsGroups | main.go:52-54 | records with equal keys appear in the result in their input order (stability) |
| StableSort.SortedByIsStableSort | main.go:52-54 | the result is sorted, a permutation and stable |
| StableSort.SortedIsFixed | main.go:52-54 | sorting an already-sorted sequence leaves it unchanged |
| StableSort.SortedByIdempotent | main.go:52-54 | sorting twice gives the same roster as sorting once |
| StableSort.LastIsGreatest | main.go:52-54 | in a sorted sequence no element's key is above the last one's |
| StableSort.LastKeysAgree | main.go:52-54 | two non-empty sorted sequences with the same key groups end in elements with the same key |
| StableSort.SameGroupsSameOrder | main.go:52-54 | two sorted sequences with the same key groups in the same order are equal |
| StableSort.StableSortIsUnique | main.go:52-54 | any sorted, stable permutation of the input equals `SortedBy`, so every stable sort algorithm, the library's included, gives this roster |
| StableSort.InsertStep | main.go:52-54 | one swap of the insertion moves x past a larger-keyed element without changing the insertion's result |
| StableSort.InsertAt | main.go:52-54 | the in-place pass inserts a[i] into the sorted prefix a[..i] and leaves the rest of the array unchanged |
| StableSort.InsertionSort | main.go:52-54 | the array ends as the stable sort of its initial contents |
| PositionStats.PositionsHaveRecords | main.go:108-111 | a position occurs in the roster exactly when its group of records is non-empty |
| PositionStats.WithPositionMembers | main.go:96-97 | a position's group holds exactly the roster's records with that position |
| PositionStats.NoPositionsIffEmpty | main.go:76-79 | the roster has no positions exactly when it has no records |
| PositionStats.AbsentPositionHasNoRecords | main.go:108-111 | a position not in the roster has no records |
| PositionStats.TotalsAt | main.go:108-109 | the running totals have one entry per position, holding the sum of that position's experience |
| PositionStats.CountsAt | main.go:108-110 | the running counts have one entry per position, holding the number of that position's records |
| PositionStats.AveragesAreQuotients | main.go:113-116 | each average is the position's total divided by its count, and the count is positive |
| PositionStats.Accumulate | main.go:105-111 | the first loop leaves each position's total experience and record count in the two maps |
| PositionStats.CalculatePosition | main.go:104-119 | the result maps every position in the roster, and nothing else, to the mean experience of its records |
| PositionStats.AveragesKeys | main.go:113-116 | the keys of the averages are the roster's positions |
| PositionStats.AveragesKeysArePositions | main.go:104-119 | a position is a key of the result exactly when some record holds it; an empty roster gives an empty map |
| PositionStats.AverageIsMean | main.go:115 | a position's average is the mean of its non-empty group |
| PositionStats.MeanAtLeast | main.go:115 | a mean is at least any lower bound on the group's experience |
| PositionStats.MeanAtMost | main.go:115 | a mean is at most any upper bound on the group's experience |
| PositionStats.AverageAtLeast | main.go:115 | a position's average is at least any lower bound on its records' experience |
| PositionStats.AverageAtMost | main.go:115 | a position's average is at most any upper bound on its records' experience |
| PositionStats.NonNegativeAverages | main.go:82 | when no experience is negative, no average is negative, so none equals the `-1` sentinel |
| PositionStats.ExampleAverages | main.go:104-119 | two records of one position and one of another give the pair's mean and the third's experience |
| PositionStats.TwoPositions | main.go:104-119 | two records of different positions each give their own experience as the average |
| PositionStats.FindPosition | main.go:73-101 | an empty roster selects nothing; otherwise the position chosen has the smallest average of all, and its members are exactly its records in roster order |
| PositionStats.ExampleSelection | main.go:73-101 | when the single record's experience is below the pair's mean, its position is the answer, with that record as the only member |
| PositionStats.ScanMinKeepsMinimum | main.go:85-90 | as written, when no average is `-1`, the loop keeps a real key whose average is at most every average visited |
| PositionStats.ScanMinFindsMinimum | main.go:81-90 | as written, over any visiting order and with no average equal to `-1`, the loop ends on a position with the smallest average |
| PositionStats.SentinelHidesMinimum | main.go:82-89 | as written, a position averaging exactly `-1` is overwritten by the next one visited, so a larger average is reported |

## Left out

- The interactive menu, console prompts and reading of input in `main`: these are I/O.
- `displayEmployees` and every `Printf`/`Println`: these are output formatting. The
  1-based number printed by `removeEmployee` is returned as a 0-based index, and the
  chosen position, its average and its members are returned by `FindPosition`.
- `FileExists`, `SaveToFile`, `LoadFromFile` and the automatic save inside
  `sortEmployees`: these are file-system access and JSON encoding in a library
  outside this model.
- IEEE `float64` rounding in the sums and the division: experience is an exact `real`.
- Unicode case folding in `strings.ToLower`: only ASCII letters are lower-cased here.
- Byte strings: a Go string is a sequence of bytes, while a model string is a sequence
  of Unicode scalar values. Byte strings that are not valid UTF-8 cannot be
  represented, even though main.go:33 and main.go:97 compare names and positions byte
  by byte.
- NaN and ±Inf: a float64 experience can hold them, and `real` has no counterpart.
- Sorting in place: `SortEmployees` and `SortPositions` sort a fresh array and store
  its contents back into `list`. The model does not capture that `sort.SliceStable`
  reorders the slice's own backing array, nor any aliasing of that array.
- The merge-based algorithm inside `sort.SliceStable`: it is library code, and it is
  replaced by an insertion sort. `StableSort.StableSortIsUnique` shows that every stable
  sort gives the same result.
- The tie-break among positions with equal averages: it depends on Go's map order.
  `FindPosition` may choose any position with the smallest average.

## Findings

| source | as written | input that shows it | evidently intended | confidence | as-written member | corrected member |
|---|---|---|---|---|---|---|
| main.go:82-89 | `minExperience` starts at `-1` and `-1` is read as "nothing chosen yet", so a position whose average is exactly `-1` is replaced by the next one visited | roster X/A/-1.0 and Y/B/5.0, with the map visited A then B: the result is B with 5.0, though A averages -1.0 | report A, the position with the smallest average | high; not executed | PositionStats.SentinelHidesMinimum | PositionStats.FindPosition |
