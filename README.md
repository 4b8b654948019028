# NC_Compare — a verified model of the batch comparators

NC_Compare holds two batch comparators for folders of text files. Both walk the
sub-folders of a root directory and diff pairs of files within each folder with
Python's `difflib.Differ`. Both then classify the differ's prefixed lines into difference
records and fold the per-pair results into run counters.

- `NC/Compare_nc_txt.py` buckets each folder's files by configured extension. It
  compares the first two files, in sorted order, of each extension that has at
  least two. Each comparison is reported as `identical`, `different` or `error`.
  The comparator object keeps a `different_files` list that grows across calls.
  A folder can therefore yield one diff per configured extension.
- `NC/Compare_txt.py` compares one fixed pair per folder. It reduces each
  comparison to `(is_identical, differences)`, where `-1` stands for an error.

The two files share the classifier `_analyze_differences` statement for
statement; only its docstring differs. It is modelled once, in module `DiffClassifier`, and both comparators
use it. The classifier reads differ lines left to right:

- A line starting with two spaces is a common line. It advances the line counter.
- A `-` line yields a *deleted* record numbered one past the counter.
- A `+` line yields an *added* record numbered the same way, then advances the counter.
- A `?` hint line has an effect only when the last record is a deletion. It then
  turns that record into a *changed* record and appends a *changed-to* record
  holding the hint's text.
- Any other line is ignored.
- An empty line raises `IndexError`, because `line[0]` is evaluated on it.

The model is organised as follows.

- `Wrappers` (wrappers.dfy) holds the optional-value datatype the other modules share.
- `DiffClassifier` (classifier.dfy):
  - the classifier loop, as the method `AnalyzeDifferences`;
  - the left-fold function `Classify` that specifies it;
  - the lemmas about that function.
- `DiffReference` (reference.dfy) describes record by record which line yields
  which record, with no loop state. It proves that the loop computes exactly that.
- `Bucketing` (bucketing.dfy) covers the bucketing and sorting of `_find_files`:
  - `list.sort` is modelled by a sort on Python's string order;
  - the lemmas state that the buckets are sorted permutations of the matching
    files, and that each file lands in the bucket of the first extension it ends
    with.
- `NcComparator` (nc_comparator.dfy) holds the class `BatchFileComparator`:
  - the field `differentFiles`;
  - the methods `FindFiles`, `CompareInFolder`, `ComparePair`, `Run` and
    `CompareFolders`;
  - the specification functions of the run counters.
- `TxtComparator` (txt_comparator.dfy) holds the result mapping of
  `_compare_file_pair` and the counter loop of `run`.
- `Scenarios` (scenarios.dfy) holds concrete runs on small differ outputs.

Reading files and running `difflib` are replaced by a reader function, a
parameter of the comparators. It returns either the differ's lines with the two
line counts, or a read error and its message.

## Model

| member | source | states |
|---|---|---|
| DiffClassifier.TagMeaning | NC/Compare_nc_txt.py:99-119 | a line is common exactly when it starts with two spaces; it is a '-', '+' or '?' line exactly when its first character is that one; it is empty, so that `line[0]` raises, exactly when it has no character |
| DiffClassifier.PayloadMeaning | NC/Compare_nc_txt.py:104-110 | a record's content is the line after its two-character prefix (empty for a shorter line) with its trailing newlines removed and nothing else |
| DiffClassifier.RStripNewlines | NC/Compare_nc_txt.py:110 | `rstrip('\n')` returns a prefix of its input that does not end in a newline; every character removed is a newline |
| DiffClassifier.AnalyzeDifferences | NC/Compare_nc_txt.py:93-128 | the classifier loop returns exactly the records of the left fold `Classify`, or the IndexError of the first empty line |
| DiffClassifier.ErrorPersists | NC/Compare_nc_txt.py:103 | once the loop has raised on a line, the lines after it do not matter |
| DiffClassifier.FailsOnlyOnEmptyLine | NC/Compare_txt.py:101-106 | the classifier raises exactly when some differ line is empty, and then at the first empty line |
| DiffClassifier.CounterCountsCommonAndAdded | NC/Compare_txt.py:100-120 | after the loop, the line counter equals the number of common lines plus the number of '+' lines |
| DiffClassifier.OpenDeletionTracksLastMarker | NC/Compare_txt.py:121-122 | the last record is an unpromoted deletion exactly when the last '-', '+' or '?' line read is a '-' line |
| DiffClassifier.PromotionRule | NC/Compare_txt.py:121-128 | a hint line promotes the last deletion to a change and appends its content exactly when the last marker line before it is a '-' line; otherwise it changes nothing |
| DiffClassifier.SecondHintIgnored | NC/Compare_txt.py:121-128 | of two consecutive hint lines, the second has no effect |
| DiffClassifier.RecordCount | NC/Compare_txt.py:108-128 | there is one record per '-' line, one per '+' line and one per promoting hint line |
| DiffClassifier.PromotionsBoundedByDeletions | NC/Compare_nc_txt.py:119-126 | each promotion consumes a distinct '-' line, so there are no more changes than '-' lines |
| DiffClassifier.EmptyIffNoEdits | NC/Compare_nc_txt.py:106-128 | the classifier returns no records exactly when the differ output has no '-' and no '+' line |
| DiffClassifier.MergeInvariant | NC/Compare_nc_txt.py:119-126 | every changed-to record directly follows a changed record, every changed record is directly followed by a changed-to record, and no record sequence starts with a changed-to or ends with a changed record |
| DiffClassifier.LineNumbersMonotone | NC/Compare_nc_txt.py:99-118 | exactly the changed-to records have no line number; the others are numbered between 1 and the final counter plus one, non-decreasing in output order |
| DiffClassifier.NoDeletionsNoChanges | NC/Compare_txt.py:108-128 | without '-' lines, there is one record per '+' line and every record is an addition |
| DiffReference.ClassifyMatchesReference | NC/Compare_nc_txt.py:93-128 | on input without empty lines, the loop yields exactly the declarative records: one per '-' and '+' line, and one per hint whose last marker line before it is a '-' line, in input order |
| DiffReference.RecordOfDeletion | NC/Compare_nc_txt.py:106-111 | a '-' line's record is numbered one past the common and '+' lines before it and carries its payload; it is a change exactly when the next marker line after it is a hint; it appears in the classifier's output |
| Bucketing.Lower | NC/Compare_nc_txt.py:60 | `lower()` keeps the length, maps each ASCII capital to its small letter, leaves every other character alone, and leaves no ASCII capital |
| Bucketing.EndsWith | NC/Compare_nc_txt.py:62 | `endswith` holds exactly when some suffix of the name equals the extension |
| Bucketing.FirstMatch | NC/Compare_nc_txt.py:61-64 | the inner loop picks the first extension the lower-cased name ends with, and none when no extension matches |
| Bucketing.NameLeTotal | NC/Compare_nc_txt.py:67-68 | Python's string order is total |
| Bucketing.NameLeTransitive | NC/Compare_nc_txt.py:67-68 | Python's string order is transitive |
| Bucketing.NameLeAntisymmetric | NC/Compare_nc_txt.py:67-68 | Python's string order is antisymmetric |
| Bucketing.Insert | NC/Compare_nc_txt.py:67-68 | inserting into a sorted list keeps it sorted and adds exactly that element |
| Bucketing.SortNames | NC/Compare_nc_txt.py:67-68 | `list.sort()` yields a sorted permutation of the list |
| Bucketing.SortedPermutationUnique | NC/Compare_nc_txt.py:66-68 | two sorted permutations of the same names are equal, so the sorted bucket is fully determined |
| Bucketing.MatchingMembers | NC/Compare_nc_txt.py:59-64 | a name is in the bucket of an extension exactly when it is in the listing and that extension is the first one it ends with |
| Bucketing.AtMostOneBucket | NC/Compare_nc_txt.py:61-64 | because of the `break`, a file lands in at most one bucket |
| Bucketing.InSomeBucket | NC/Compare_nc_txt.py:59-64 | a listed file is in some bucket exactly when its lower-cased name ends with some configured extension |
| Bucketing.AppendToFirstMatch | NC/Compare_nc_txt.py:61-64 | the name is appended to the bucket of its first matching extension, and every other bucket is unchanged |
| Bucketing.CollectBuckets | NC/Compare_nc_txt.py:58-64 | there is one bucket per configured extension, holding the matching names in listing order |
| Bucketing.SortBuckets | NC/Compare_nc_txt.py:66-68 | every bucket becomes a sorted permutation of itself |
| Bucketing.BucketFiles | NC/Compare_nc_txt.py:57-68 | one folder's buckets: keyed by the extensions; each a sorted permutation of the names whose first match is that extension; equal to `BucketsOf` |
| NcComparator.BatchFileComparator.constructor | NC/Compare_nc_txt.py:9-15 | the extensions are lower-cased once, defaulting to `.nc` and `.txt` when none are given, and the different-files list starts empty |
| NcComparator.DefaultExtsLower | NC/Compare_nc_txt.py:9-11 | the default extensions are already lower case, so lower-casing leaves them as they are |
| Scenarios.DefaultComparator | NC/Compare_nc_txt.py:9-14 | a comparator built without extensions compares `.nc` and `.txt` files and starts with no different pair |
| NcComparator.BatchFileComparator.FindFiles | NC/Compare_nc_txt.py:47-75 | the folder groups are the root's directories in listing order, non-directories skipped, each with the buckets of its own listing |
| NcComparator.PairComparison | NC/Compare_nc_txt.py:159-206 | a pair is an error exactly when reading failed or the differ output has an empty line; it is identical exactly when the output has no '-' and no '+' line; it is different otherwise, with the record count (at least 1) |
| NcComparator.BatchFileComparator.CompareInFolder | NC/Compare_nc_txt.py:130-211 | one comparison per configured extension whose bucket holds at least two files, in extension order; every different pair is appended to the object's different-files list, and nothing else is appended |
| NcComparator.BatchFileComparator.ComparePair | NC/Compare_nc_txt.py:149-206 | comparing one pair yields its `PairComparison`, and the object's different-files list grows by that pair exactly when it is different |
| NcComparator.BatchFileComparator.CompareFolders | NC/Compare_nc_txt.py:239-258 | the folder loop of `run` yields the counters folded over every folder's comparisons, and the object's list grows by exactly the run's different files |
| NcComparator.PairSelection | NC/Compare_nc_txt.py:142-149 | an extension is compared exactly when its bucket has at least two files, and then with the bucket's first two files |
| NcComparator.BatchFileComparator.Run | NC/Compare_nc_txt.py:213-287 | no directory gives no result; otherwise the result is the counters over every folder's comparisons, and the object's list grows by exactly the run's different files |
| NcComparator.CountComparisons | NC/Compare_nc_txt.py:243-258 | the inner counting loop of `run` computes the fold of one folder's comparisons into the counters |
| NcComparator.AddComparisonsFacts | NC/Compare_nc_txt.py:243-258 | counting a folder's comparisons keeps the counters consistent, adds their number to compared pairs, and appends their different pairs |
| NcComparator.TallyPartition | NC/Compare_nc_txt.py:228-258 | compared pairs equal identical plus different plus error pairs, and equal the number of comparisons; different files list every different pair in processing order; different pairs is their number; total differences is the sum of their counts |
| NcComparator.DifferentFilesAdded | NC/Compare_nc_txt.py:250-256 | the entries `run` appends to its different-files list are exactly those `_compare_in_folder` appended to the object's list |
| NcComparator.DifferentPairsHaveDifferences | NC/Compare_nc_txt.py:246-248 | every listed different pair has at least one difference, so total differences is at least different pairs |
| NcComparator.GroupsHaveBuckets | NC/Compare_nc_txt.py:58 | every folder group has a bucket for each configured extension, so the lookup in `_compare_in_folder` cannot fail |
| TxtComparator.ResultOf | NC/Compare_txt.py:145-172 | the result is `(True, 0)` exactly when the differ output has no '-', no '+' and no empty line; it is `(False, -1)` exactly when reading failed or the classifier raised; otherwise it is `(False, n)` with n the record count, at least 1 |
| TxtComparator.CompareFilePair | NC/Compare_txt.py:132-172 | comparing a pair yields `ResultOf` of the reader's output |
| TxtComparator.Run | NC/Compare_txt.py:174-243 | there is no result exactly when there are no pairs; otherwise the result is the counters folded over every pair's result, in order |
| TxtComparator.TallyMeaning | NC/Compare_txt.py:199-217 | on well-formed results, the three counts are the numbers of identical, positive and sentinel results and add up to the number of details; different folders lists the folders with a positive count in order; total differences sums those counts and is at least their number |
| TxtComparator.DetailsWellFormed | NC/Compare_txt.py:150-172 | every pair result is well formed, and the `-1` sentinel marks exactly the pairs whose reading failed or whose differ output has an empty line |
| TxtComparator.RunCounters | NC/Compare_txt.py:189-217 | identical plus different plus error counts equal the total folders, which is the number of pairs; error count is the number of sentinel results; different folders are listed in order; total differences is at least different count |
| Scenarios.AppendedLine | NC/Compare_nc_txt.py:112-118 | a line appended after one common line is reported as an addition at line 2 |
| Scenarios.RemovedLastLine | NC/Compare_nc_txt.py:106-111 | a removed last line after one common line is reported as a deletion at line 2 |
| Scenarios.ReplacedLine | NC/Compare_nc_txt.py:119-126 | a '-', '?', '+', '?' replacement yields a change, its changed-to hint text and an addition; the hint after the '+' line is ignored |
| Scenarios.EmptyLineRaises | NC/Compare_txt.py:105 | an empty differ line raises at its index, and the pair result is `(False, -1)` |
| Scenarios.SingleFileSkipped | NC/Compare_nc_txt.py:144-149 | an extension with a single file yields no comparison; one with two files is compared |

## Left out

- Reading files is left out: UTF-8 decoding, the fallback to Latin-1 in
  `Compare_nc_txt.py`, and the raw-bytes fallback in `Compare_txt.py`. So is
  `difflib.Differ`'s alignment, including its similarity threshold for hint
  lines. All of this is a reader function passed to the comparators. It returns
  the differ's lines, or a read error and its message.
- Logging is left out: the logger setup, every log message, and the log-file
  path.
- Timing (`time.time`) and the `__main__` usage blocks are left out.
- `os.listdir`, `os.path.isdir` and `os.path.join` are left out. A root listing
  is a sequence of entries, each with a name, a directory flag and the names it
  contains. The buckets hold the bare file names, not joined paths. Joining one
  folder path to each name does not change their relative order.
- The root listing is assumed to name each folder once, as a directory listing
  does. `file_groups` is then a list in listing order rather than a dict keyed
  by folder.
- `str.lower()` is modelled on ASCII letters only. Non-ASCII case mapping is not
  modelled.
- `NcComparator.PairComparison`: the error message of a read failure is the
  reader's message, not Python's exception text.
- `_find_file_pairs` of `Compare_txt.py` and `compare_files_in_directory` are
  left out. They only check the existence of two fixed file names. `Run` takes
  the resulting pair list as input.
- The `folder_path` and `differences: 0` fields of the dictionaries are left out.
  The first is a joined path. The second is a constant of identical results.
- Python's string order covers code points only. Any order a file system imposes
  is left out, because `os.listdir` order is taken as given.
