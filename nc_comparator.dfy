/**
 * The extension-based batch comparator (NC/Compare_nc_txt.py): every sub-folder of
 * the root is searched for files of the configured extensions, the first two files
 * (in sorted order) of each extension are compared, and the per-pair outcomes are
 * folded into run counters.
 */
module NcComparator {
  import opened Wrappers
  import opened DiffClassifier
  import Bucketing

  /** One entry of the root directory's listing: its name, whether it is a directory,
      and (for a directory) the names it contains. */
  datatype DirEntry = DirEntry(name: string, isDir: bool, listing: seq<string>)

  /** `file_groups[folder]`: a folder with its files bucketed by extension. */
  datatype FolderGroup = FolderGroup(folder: string, filesByExt: map<string, seq<string>>)

  /** The outcome of one pair: status 'identical', 'different' or 'error'. */
  datatype Comparison =
    | Identical(file1: string, file2: string, ext: string)
    | Different(file1: string, file2: string, ext: string, differences: nat)
    | Failed(error: string, ext: string)

  /** An entry of `different_files`. */
  datatype DifferentFile = DifferentFile(folder: string, file1: string, file2: string, ext: string, differences: nat)

  /** What `_compare_in_folder` returns. */
  datatype FolderResult = FolderResult(folder: string, comparisons: seq<Comparison>)

  /** The `results` dictionary `run` returns. */
  datatype Summary = Summary(
    totalFolders: nat,
    comparedPairs: nat,
    identicalPairs: nat,
    differentPairs: nat,
    errorPairs: nat,
    totalDifferences: nat,
    differentFiles: seq<DifferentFile>,
    details: seq<FolderResult>)

  /** Reads and aligns two files of a folder (`_compare_files`). */
  type Reader = (string, string, string) -> DifferOutput

  /** `str(e)` of the IndexError the classifier raises on an empty differ line. */
  const IndexErrorMessage := "string index out of range"

  /** The default extensions. */
  const DefaultExts := [".nc", ".txt"]

  function LowerAll(exts: seq<string>): seq<string>
  {
    seq(|exts|, i requires 0 <= i < |exts| => Bucketing.Lower(exts[i]))
  }

  /** The default extensions are already lower case, so a comparator built without an
      argument compares `.nc` files and `.txt` files. */
  lemma DefaultExtsLower()
    ensures LowerAll(DefaultExts) == DefaultExts
  {
    var e := LowerAll(DefaultExts);
    assert e[0] == Bucketing.Lower(".nc") == ".nc";
    assert e[1] == Bucketing.Lower(".txt") == ".txt";
  }

  /** The folder groups of a root listing: its directories, in listing order, each
      with the buckets of its own listing. */
  function GroupsOf(exts: seq<string>, entries: seq<DirEntry>): seq<FolderGroup>
  {
    if entries == [] then []
    else
      var e := entries[|entries| - 1];
      GroupsOf(exts, entries[..|entries| - 1])
        + (if e.isDir then [FolderGroup(e.name, Bucketing.BucketsOf(exts, e.listing))] else [])
  }

  /** The status choice for one pair: an exception (reading, or an empty differ line)
      gives 'error'; otherwise no differences gives 'identical', and any gives
      'different' with their number. */
  function PairComparison(file1: string, file2: string, ext: string, out: DifferOutput): (c: Comparison)
    ensures c.ext == ext
    ensures !c.Failed? ==> c.file1 == file1 && c.file2 == file2
    ensures c.Failed? <==> out.ReadError? || !NoEmptyLines(out.diff)
    ensures c.Identical? <==>
      out.Aligned? && NoEmptyLines(out.diff) && CountTag(out.diff, MinusLine) == 0 && CountTag(out.diff, PlusLine) == 0
    ensures c.Different? ==>
      out.Aligned? && Classify(out.diff).Ok? && c.differences == |Classify(out.diff).value| >= 1
  {
    match out
    case ReadError(message) => Failed(message, ext)
    case Aligned(diff, _, _) =>
      FailsOnlyOnEmptyLine(diff);
      match Classify(diff)
      case Err(_) => Failed(IndexErrorMessage, ext)
      case Ok(differences) =>
        EmptyIffNoEdits(diff);
        if differences == [] then Identical(file1, file2, ext)
        else Different(file1, file2, ext, |differences|)
  }

  /** The comparisons made for one extension: none with fewer than two files, otherwise
      one, of the first two files of the (sorted) bucket. */
  function ComparisonsFor(folder: string, ext: string, files: seq<string>, read: Reader): seq<Comparison>
  {
    if |files| < 2 then []
    else [PairComparison(files[0], files[1], ext, read(folder, files[0], files[1]))]
  }

  predicate HasBuckets(exts: seq<string>, byExt: map<string, seq<string>>)
  {
    forall e :: e in exts ==> e in byExt
  }

  function FolderComparisons(folder: string, exts: seq<string>, byExt: map<string, seq<string>>, read: Reader): seq<Comparison>
    requires HasBuckets(exts, byExt)
  {
    if exts == [] then []
    else
      var ext := exts[|exts| - 1];
      FolderComparisons(folder, exts[..|exts| - 1], byExt, read) + ComparisonsFor(folder, ext, byExt[ext], read)
  }

  /** The entries a folder's comparisons add to `different_files`. */
  function DifferentFilesOf(folder: string, comparisons: seq<Comparison>): seq<DifferentFile>
  {
    if comparisons == [] then []
    else
      var c := comparisons[|comparisons| - 1];
      DifferentFilesOf(folder, comparisons[..|comparisons| - 1])
        + (if c.Different? then [DifferentFile(folder, c.file1, c.file2, c.ext, c.differences)] else [])
  }

  // ---------------------------------------------------------------------------
  // The counters of `run`

  function InitialSummary(totalFolders: nat): Summary
  {
    Summary(totalFolders, 0, 0, 0, 0, 0, [], [])
  }

  /** One pass of the inner loop of `run`. */
  function AddComparison(s: Summary, folder: string, c: Comparison): Summary
  {
    var s1 := s.(comparedPairs := s.comparedPairs + 1);
    match c
    case Identical(_, _, _) => s1.(identicalPairs := s1.identicalPairs + 1)
    case Different(file1, file2, ext, n) =>
      s1.(differentPairs := s1.differentPairs + 1,
          totalDifferences := s1.totalDifferences + n,
          differentFiles := s1.differentFiles + [DifferentFile(folder, file1, file2, ext, n)])
    case Failed(_, _) => s1.(errorPairs := s1.errorPairs + 1)
  }

  function AddComparisons(s: Summary, folder: string, comparisons: seq<Comparison>): Summary
  {
    if comparisons == [] then s
    else
      AddComparison(AddComparisons(s, folder, comparisons[..|comparisons| - 1]), folder, comparisons[|comparisons| - 1])
  }

  /** One pass of the outer loop of `run`: record the folder's result, then count its comparisons. */
  function AddFolder(s: Summary, d: FolderResult): Summary
  {
    AddComparisons(s.(details := s.details + [d]), d.folder, d.comparisons)
  }

  function Tally(s: Summary, details: seq<FolderResult>): Summary
  {
    if details == [] then s else AddFolder(Tally(s, details[..|details| - 1]), details[|details| - 1])
  }

  predicate AllHaveBuckets(exts: seq<string>, groups: seq<FolderGroup>)
  {
    forall k :: 0 <= k < |groups| ==> HasBuckets(exts, groups[k].filesByExt)
  }

  function DetailsOf(exts: seq<string>, groups: seq<FolderGroup>, read: Reader): seq<FolderResult>
    requires AllHaveBuckets(exts, groups)
  {
    seq(|groups|, k requires 0 <= k < |groups| =>
      FolderResult(groups[k].folder, FolderComparisons(groups[k].folder, exts, groups[k].filesByExt, read)))
  }

  /** The `results` of a run over the given folder groups. */
  function SummaryOf(exts: seq<string>, groups: seq<FolderGroup>, read: Reader): Summary
    requires AllHaveBuckets(exts, groups)
  {
    Tally(InitialSummary(|groups|), DetailsOf(exts, groups, read))
  }

  // ---------------------------------------------------------------------------
  // Independent descriptions of what the counters count

  function SumDifferences(files: seq<DifferentFile>): nat
  {
    if files == [] then 0 else SumDifferences(files[..|files| - 1]) + files[|files| - 1].differences
  }

  function TotalComparisons(details: seq<FolderResult>): nat
  {
    if details == [] then 0 else TotalComparisons(details[..|details| - 1]) + |details[|details| - 1].comparisons|
  }

  function AllDifferentFiles(details: seq<FolderResult>): seq<DifferentFile>
  {
    if details == [] then []
    else
      var d := details[|details| - 1];
      AllDifferentFiles(details[..|details| - 1]) + DifferentFilesOf(d.folder, d.comparisons)
  }

  /** The counters partition the compared pairs, count the different ones, and add up
      their differences. */
  ghost predicate Consistent(s: Summary)
  {
    && s.comparedPairs == s.identicalPairs + s.differentPairs + s.errorPairs
    && s.differentPairs == |s.differentFiles|
    && s.totalDifferences == SumDifferences(s.differentFiles)
  }

  lemma {:induction false} AddComparisonsFacts(s: Summary, folder: string, comparisons: seq<Comparison>)
    requires Consistent(s)
    ensures var t := AddComparisons(s, folder, comparisons);
      && Consistent(t)
      && t.comparedPairs == s.comparedPairs + |comparisons|
      && t.differentFiles == s.differentFiles + DifferentFilesOf(folder, comparisons)
      && t.details == s.details && t.totalFolders == s.totalFolders
  {
    if comparisons != [] {
      var p := comparisons[..|comparisons| - 1];
      AddComparisonsFacts(s, folder, p);
      var t := AddComparisons(s, folder, p);
      var c := comparisons[|comparisons| - 1];
      if c.Different? {
        var f := DifferentFile(folder, c.file1, c.file2, c.ext, c.differences);
        assert (t.differentFiles + [f])[..|t.differentFiles|] == t.differentFiles;
      }
    }
  }

  /** After `run`: compared_pairs = identical_pairs + different_pairs + error_pairs and is the
      number of comparisons made; different_files lists, in processing order, exactly
      the pairs found different, and total_differences is the sum of their counts. */
  lemma {:induction false} TallyPartition(totalFolders: nat, details: seq<FolderResult>)
    ensures var s := Tally(InitialSummary(totalFolders), details);
      && Consistent(s)
      && s.comparedPairs == TotalComparisons(details)
      && s.differentFiles == AllDifferentFiles(details)
      && s.details == details
      && s.totalFolders == totalFolders
  {
    if details != [] {
      var p := details[..|details| - 1];
      var d := details[|details| - 1];
      TallyPartition(totalFolders, p);
      var s := Tally(InitialSummary(totalFolders), p);
      AddComparisonsFacts(s.(details := s.details + [d]), d.folder, d.comparisons);
      assert details == p + [d];
    }
  }

  /** Every pair listed as different has at least one difference, so total_differences is
      at least different_pairs. */
  lemma DifferentPairsHaveDifferences(exts: seq<string>, groups: seq<FolderGroup>, read: Reader)
    requires AllHaveBuckets(exts, groups)
    ensures var s := SummaryOf(exts, groups, read);
      && (forall f :: f in s.differentFiles ==> f.differences >= 1)
      && s.totalDifferences >= s.differentPairs
  {
    var details := DetailsOf(exts, groups, read);
    TallyPartition(|groups|, details);
    var s := SummaryOf(exts, groups, read);
    forall k | 0 <= k < |details| ensures forall f :: f in DifferentFilesOf(details[k].folder, details[k].comparisons) ==> f.differences >= 1 {
      FolderComparisonsFromPairs(groups[k].folder, exts, groups[k].filesByExt, read);
      DifferentFilesPositive(details[k].folder, details[k].comparisons);
    }
    AllDifferentFilesPositive(details);
    SumAtLeastCount(s.differentFiles);
  }

  lemma {:induction false} FolderComparisonsFromPairs(folder: string, exts: seq<string>, byExt: map<string, seq<string>>, read: Reader)
    requires HasBuckets(exts, byExt)
    ensures forall c :: c in FolderComparisons(folder, exts, byExt, read) ==> (c.Different? ==> c.differences >= 1)
  {
    if exts != [] {
      FolderComparisonsFromPairs(folder, exts[..|exts| - 1], byExt, read);
    }
  }

  lemma {:induction false} DifferentFilesPositive(folder: string, comparisons: seq<Comparison>)
    requires forall c :: c in comparisons ==> (c.Different? ==> c.differences >= 1)
    ensures forall f :: f in DifferentFilesOf(folder, comparisons) ==> f.differences >= 1
  {
    if comparisons != [] {
      var p := comparisons[..|comparisons| - 1];
      assert forall c :: c in p ==> c in comparisons;
      DifferentFilesPositive(folder, p);
    }
  }

  lemma {:induction false} AllDifferentFilesPositive(details: seq<FolderResult>)
    requires forall k :: 0 <= k < |details| ==>
      forall f :: f in DifferentFilesOf(details[k].folder, details[k].comparisons) ==> f.differences >= 1
    ensures forall f :: f in AllDifferentFiles(details) ==> f.differences >= 1
  {
    if details != [] {
      AllDifferentFilesPositive(details[..|details| - 1]);
    }
  }

  lemma {:induction false} SumAtLeastCount(files: seq<DifferentFile>)
    requires forall f :: f in files ==> f.differences >= 1
    ensures SumDifferences(files) >= |files|
  {
    if files != [] {
      var p := files[..|files| - 1];
      assert forall f :: f in p ==> f in files;
      SumAtLeastCount(p);
    }
  }

  /** Pair selection: an extension is compared exactly when its bucket has at least two
      files, and then with its first two files. */
  lemma {:induction false} PairSelection(folder: string, exts: seq<string>, byExt: map<string, seq<string>>, read: Reader)
    requires HasBuckets(exts, byExt)
    ensures forall c :: c in FolderComparisons(folder, exts, byExt, read) ==>
      && c.ext in exts
      && |byExt[c.ext]| >= 2
      && (!c.Failed? ==> c.file1 == byExt[c.ext][0] && c.file2 == byExt[c.ext][1])
    ensures forall e :: e in exts && |byExt[e]| >= 2 ==>
      exists c :: c in FolderComparisons(folder, exts, byExt, read) && c.ext == e
    ensures forall e :: e in exts && |byExt[e]| < 2 ==>
      forall c :: c in FolderComparisons(folder, exts, byExt, read) ==> c.ext != e
  {
    if exts != [] {
      var p := exts[..|exts| - 1];
      var ext := exts[|exts| - 1];
      assert HasBuckets(p, byExt);
      PairSelection(folder, p, byExt, read);
      assert exts == p + [ext];
      var cs := FolderComparisons(folder, exts, byExt, read);
      var extra := ComparisonsFor(folder, ext, byExt[ext], read);
      assert cs == FolderComparisons(folder, p, byExt, read) + extra;
      forall e | e in exts && |byExt[e]| >= 2
        ensures exists c :: c in cs && c.ext == e
      {
        if e == ext {
          assert extra[0] in cs;
        } else {
          assert e in p;
          var c :| c in FolderComparisons(folder, p, byExt, read) && c.ext == e;
          assert c in cs;
        }
      }
    }
  }

  // ---------------------------------------------------------------------------

  /** `BatchFileComparator`: the configured extensions, and the `different_files` list that
      `_compare_in_folder` appends to (it is never cleared, so repeated runs accumulate). */
  class BatchFileComparator {
    const fileExts: seq<string>
    var differentFiles: seq<DifferentFile>

    /** The extensions are lower-cased once, here; without an argument they are `.nc` and `.txt`. */
    constructor (exts: seq<string> := DefaultExts)
      ensures fileExts == LowerAll(exts)
      ensures differentFiles == []
    {
      fileExts := LowerAll(exts);
      differentFiles := [];
    }

    /** `_find_files`: the directories of the root, in listing order, each with its files
        bucketed by extension. */
    method FindFiles(entries: seq<DirEntry>) returns (groups: seq<FolderGroup>)
      ensures groups == GroupsOf(fileExts, entries)
    {
      groups := [];
      for i := 0 to |entries|
        invariant groups == GroupsOf(fileExts, entries[..i])
      {
        assert entries[..i + 1][..i] == entries[..i];
        var entry := entries[i];
        if !entry.isDir {
          continue;
        }
        var extFiles := Bucketing.BucketFiles(fileExts, entry.listing);
        groups := groups + [FolderGroup(entry.name, extFiles)];
      }
      assert entries[..|entries|] == entries;
    }

    /** `_compare_in_folder`: one comparison per extension whose bucket has two files or more. */
    method CompareInFolder(group: FolderGroup, read: Reader) returns (result: FolderResult)
      requires HasBuckets(fileExts, group.filesByExt)
      modifies this
      ensures result == FolderResult(group.folder, FolderComparisons(group.folder, fileExts, group.filesByExt, read))
      ensures differentFiles == old(differentFiles) + DifferentFilesOf(group.folder, result.comparisons)
    {
      var comparisonResults: seq<Comparison> := [];
      for k := 0 to |fileExts|
        invariant HasBuckets(fileExts[..k], group.filesByExt)
        invariant comparisonResults == FolderComparisons(group.folder, fileExts[..k], group.filesByExt, read)
        invariant differentFiles == old(differentFiles) + DifferentFilesOf(group.folder, comparisonResults)
      {
        FolderComparisonsSnoc(group.folder, fileExts, k, group.filesByExt, read);
        var ext := fileExts[k];
        var files := group.filesByExt[ext];
        if |files| < 2 {
          continue;
        }
        var c := ComparePair(group.folder, files[0], files[1], ext, read);
        DifferentFilesSnoc(group.folder, comparisonResults, c);
        comparisonResults := comparisonResults + [c];
      }
      assert fileExts[..|fileExts|] == fileExts;
      result := FolderResult(group.folder, comparisonResults);
    }

    /** The body of the extension loop of `_compare_in_folder` for a bucket with two files
        or more: compare its first two files, and list the pair if it differs. */
    method ComparePair(folder: string, file1: string, file2: string, ext: string, read: Reader) returns (c: Comparison)
      modifies this
      ensures c == PairComparison(file1, file2, ext, read(folder, file1, file2))
      ensures differentFiles == old(differentFiles) + DifferentFilesOf(folder, [c])
    {
      var out := read(folder, file1, file2);
      match out {
        case ReadError(message) =>
          c := Failed(message, ext);
        case Aligned(diff, _, _) =>
          var differences := AnalyzeDifferences(diff);
          match differences {
            case Err(_) =>
              c := Failed(IndexErrorMessage, ext);
            case Ok(records) =>
              if records == [] {
                c := Identical(file1, file2, ext);
              } else {
                differentFiles := differentFiles + [DifferentFile(folder, file1, file2, ext, |records|)];
                c := Different(file1, file2, ext, |records|);
              }
          }
      }
    }

    /** `run`: no directory gives no result; otherwise every folder is compared and its
        comparisons counted. */
    method Run(entries: seq<DirEntry>, read: Reader) returns (results: Option<Summary>)
      modifies this
      ensures GroupsOf(fileExts, entries) == [] ==> results == None
      ensures GroupsOf(fileExts, entries) != [] ==>
        AllHaveBuckets(fileExts, GroupsOf(fileExts, entries))
        && results == Some(SummaryOf(fileExts, GroupsOf(fileExts, entries), read))
      ensures differentFiles == old(differentFiles) + (if results.Some? then results.value.differentFiles else [])
    {
      var fileGroups := FindFiles(entries);
      if fileGroups == [] {
        return None;
      }
      GroupsHaveBuckets(fileExts, entries);
      var r := CompareFolders(fileGroups, read);
      return Some(r);
    }

    /** The folder loop of `run`: compare each folder, record its result, count its comparisons. */
    method CompareFolders(fileGroups: seq<FolderGroup>, read: Reader) returns (r: Summary)
      requires AllHaveBuckets(fileExts, fileGroups)
      modifies this
      ensures r == SummaryOf(fileExts, fileGroups, read)
      ensures differentFiles == old(differentFiles) + r.differentFiles
    {
      ghost var details := DetailsOf(fileExts, fileGroups, read);
      r := InitialSummary(|fileGroups|);
      for i := 0 to |fileGroups|
        invariant r == Tally(InitialSummary(|fileGroups|), details[..i])
        invariant differentFiles == old(differentFiles) + r.differentFiles
      {
        BucketsAt(fileExts, fileGroups, i);
        var result := CompareInFolder(fileGroups[i], read);
        NextFolder(fileExts, fileGroups, read, i, r, result);
        ConcatAssociates(old(differentFiles), r.differentFiles, DifferentFilesOf(result.folder, result.comparisons));
        r := CountComparisons(r.(details := r.details + [result]), result.folder, result.comparisons);
      }
      assert details[..|fileGroups|] == details;
    }
  }

  /** The inner loop of `run`: count one folder's comparisons. */
  method CountComparisons(s: Summary, folder: string, comparisons: seq<Comparison>) returns (r: Summary)
    ensures r == AddComparisons(s, folder, comparisons)
  {
    r := s;
    for j := 0 to |comparisons|
      invariant r == AddComparisons(s, folder, comparisons[..j])
    {
      assert comparisons[..j + 1][..j] == comparisons[..j];
      var comp := comparisons[j];
      r := r.(comparedPairs := r.comparedPairs + 1);
      match comp {
        case Identical(_, _, _) =>
          r := r.(identicalPairs := r.identicalPairs + 1);
        case Different(file1, file2, ext, n) =>
          r := r.(differentPairs := r.differentPairs + 1);
          r := r.(totalDifferences := r.totalDifferences + n);
          r := r.(differentFiles := r.differentFiles + [DifferentFile(folder, file1, file2, ext, n)]);
        case Failed(_, _) =>
          r := r.(errorPairs := r.errorPairs + 1);
      }
    }
    assert comparisons[..|comparisons|] == comparisons;
  }

  /** Counting a folder's comparisons appends to the run's list exactly the entries
      `_compare_in_folder` appended to the comparator's own list. */
  lemma {:induction false} DifferentFilesAdded(s: Summary, folder: string, comparisons: seq<Comparison>)
    ensures AddComparisons(s, folder, comparisons).differentFiles == s.differentFiles + DifferentFilesOf(folder, comparisons)
  {
    if comparisons != [] {
      DifferentFilesAdded(s, folder, comparisons[..|comparisons| - 1]);
    }
  }

  lemma FolderComparisonsSnoc(folder: string, exts: seq<string>, k: nat, byExt: map<string, seq<string>>, read: Reader)
    requires k < |exts| && HasBuckets(exts[..k], byExt) && exts[k] in byExt
    ensures HasBuckets(exts[..k + 1], byExt)
    ensures FolderComparisons(folder, exts[..k + 1], byExt, read)
         == FolderComparisons(folder, exts[..k], byExt, read) + ComparisonsFor(folder, exts[k], byExt[exts[k]], read)
  {
    assert exts[..k + 1] == exts[..k] + [exts[k]];
    assert exts[..k + 1][..k] == exts[..k];
  }

  lemma DifferentFilesSnoc(folder: string, comparisons: seq<Comparison>, c: Comparison)
    ensures DifferentFilesOf(folder, comparisons + [c]) == DifferentFilesOf(folder, comparisons) + DifferentFilesOf(folder, [c])
  {
    assert (comparisons + [c])[..|comparisons|] == comparisons;
    assert [c][..0] == [];
  }

  /** Counting a folder appends its differing pairs to the run's list. */
  lemma AddFolderDifferentFiles(s: Summary, d: FolderResult)
    ensures AddFolder(s, d).differentFiles == s.differentFiles + DifferentFilesOf(d.folder, d.comparisons)
  {
    DifferentFilesAdded(s.(details := s.details + [d]), d.folder, d.comparisons);
  }

  lemma ConcatAssociates(a: seq<DifferentFile>, b: seq<DifferentFile>, c: seq<DifferentFile>)
    ensures a + (b + c) == (a + b) + c
  {
  }

  lemma BucketsAt(exts: seq<string>, groups: seq<FolderGroup>, i: nat)
    requires AllHaveBuckets(exts, groups) && i < |groups|
    ensures HasBuckets(exts, groups[i].filesByExt)
  {
  }

  /** One pass of the folder loop of `run` extends the counters by the folder's result. */
  lemma NextFolder(exts: seq<string>, groups: seq<FolderGroup>, read: Reader, i: nat, r: Summary, result: FolderResult)
    requires AllHaveBuckets(exts, groups) && i < |groups|
    requires r == Tally(InitialSummary(|groups|), DetailsOf(exts, groups, read)[..i])
    requires result == FolderResult(groups[i].folder, FolderComparisons(groups[i].folder, exts, groups[i].filesByExt, read))
    ensures Tally(InitialSummary(|groups|), DetailsOf(exts, groups, read)[..i + 1]) == AddFolder(r, result)
    ensures AddFolder(r, result).differentFiles == r.differentFiles + DifferentFilesOf(result.folder, result.comparisons)
  {
    var details := DetailsOf(exts, groups, read);
    TallySnoc(InitialSummary(|groups|), details, i);
    assert details[i] == result;
    AddFolderDifferentFiles(r, result);
  }

  lemma TallySnoc(s: Summary, details: seq<FolderResult>, i: nat)
    requires i < |details|
    ensures Tally(s, details[..i + 1]) == AddFolder(Tally(s, details[..i]), details[i])
  {
    assert details[..i + 1][..i] == details[..i];
  }

  lemma {:induction false} GroupsHaveBuckets(exts: seq<string>, entries: seq<DirEntry>)
    ensures AllHaveBuckets(exts, GroupsOf(exts, entries))
  {
    if entries != [] {
      GroupsHaveBuckets(exts, entries[..|entries| - 1]);
    }
  }
}
