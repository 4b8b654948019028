/**
 * The fixed-name pair comparator (NC/Compare_txt.py): each folder contributes one
 * pair of files; each pair's comparison is reduced to an (is_identical, differences)
 * result, with -1 differences standing for an error, and the results are folded into
 * run counters.
 */
module TxtComparator {
  import opened Wrappers
  import opened DiffClassifier

  /** An entry of `file_pairs`. */
  datatype FilePair = FilePair(folder: string, file1: string, file2: string)

  /** What `_compare_file_pair` returns: `(is_identical, differences)`. */
  datatype PairResult = PairResult(isIdentical: bool, differences: int)

  /** An entry of `results['details']`. */
  datatype Detail = Detail(folder: string, isIdentical: bool, differences: int, file1: string, file2: string)

  /** The `results` dictionary `run` returns. */
  datatype Summary = Summary(
    totalFolders: nat,
    identicalCount: nat,
    differentCount: nat,
    errorCount: nat,
    totalDifferences: nat,
    differentFolders: seq<string>,
    details: seq<Detail>)

  /** Reads and aligns the two files of a pair (`_compare_files`). */
  type Reader = (string, string) -> DifferOutput

  /** The error sentinel of `_compare_file_pair`. */
  const ErrorSentinel: int := -1

  /** The result of one pair: `(True, 0)` exactly when the differ output has no
      '-' or '+' line and no empty line; `(False, -1)` exactly when reading failed or
      the classifier raised; otherwise `(False, n)` with `n` the number of records. */
  function ResultOf(out: DifferOutput): (r: PairResult)
    ensures r.isIdentical <==>
      out.Aligned? && NoEmptyLines(out.diff) && CountTag(out.diff, MinusLine) == 0 && CountTag(out.diff, PlusLine) == 0
    ensures r.isIdentical ==> r.differences == 0
    ensures !r.isIdentical ==> r.differences == ErrorSentinel || r.differences >= 1
    ensures r.differences == ErrorSentinel <==> out.ReadError? || !NoEmptyLines(out.diff)
    ensures r.differences >= 1 ==>
      out.Aligned? && Classify(out.diff).Ok? && r.differences == |Classify(out.diff).value|
  {
    match out
    case ReadError(_) => PairResult(false, ErrorSentinel)
    case Aligned(diff, _, _) =>
      FailsOnlyOnEmptyLine(diff);
      match Classify(diff)
      case Err(_) => PairResult(false, ErrorSentinel)
      case Ok(differences) =>
        EmptyIffNoEdits(diff);
        if differences == [] then PairResult(true, 0) else PairResult(false, |differences|)
  }

  /** `_compare_file_pair`: any exception becomes the error sentinel. */
  method CompareFilePair(pair: FilePair, read: Reader) returns (isIdentical: bool, diffCount: int)
    ensures PairResult(isIdentical, diffCount) == ResultOf(read(pair.file1, pair.file2))
  {
    var out := read(pair.file1, pair.file2);
    match out {
      case ReadError(_) =>
        return false, ErrorSentinel;
      case Aligned(diff, _, _) =>
        var differences := AnalyzeDifferences(diff);
        match differences {
          case Err(_) =>
            return false, ErrorSentinel;
          case Ok(records) =>
            if records == [] {
              return true, 0;
            }
            return false, |records|;
        }
    }
  }

  function DetailOf(pair: FilePair, read: Reader): Detail
  {
    var r := ResultOf(read(pair.file1, pair.file2));
    Detail(pair.folder, r.isIdentical, r.differences, pair.file1, pair.file2)
  }

  function DetailsOf(pairs: seq<FilePair>, read: Reader): seq<Detail>
  {
    seq(|pairs|, i requires 0 <= i < |pairs| => DetailOf(pairs[i], read))
  }

  function InitialSummary(totalFolders: nat): Summary
  {
    Summary(totalFolders, 0, 0, 0, 0, [], [])
  }

  /** One pass of the loop of `run`: record the detail, then count it as identical,
      as different (positive count), or otherwise as an error. */
  function AddDetail(s: Summary, d: Detail): Summary
  {
    var s1 := s.(details := s.details + [d]);
    if d.isIdentical then s1.(identicalCount := s1.identicalCount + 1)
    else if d.differences > 0 then
      s1.(differentCount := s1.differentCount + 1,
          totalDifferences := s1.totalDifferences + d.differences,
          differentFolders := s1.differentFolders + [d.folder])
    else s1.(errorCount := s1.errorCount + 1)
  }

  function Tally(s: Summary, details: seq<Detail>): Summary
  {
    if details == [] then s else AddDetail(Tally(s, details[..|details| - 1]), details[|details| - 1])
  }

  /** The `results` of a run over the given pairs. */
  function SummaryOf(pairs: seq<FilePair>, read: Reader): Summary
  {
    Tally(InitialSummary(|pairs|), DetailsOf(pairs, read))
  }

  /** `run`: no pair gives no result; otherwise every pair is compared and counted. */
  method Run(pairs: seq<FilePair>, read: Reader) returns (results: Option<Summary>)
    ensures results.None? <==> pairs == []
    ensures results.Some? ==> results.value == SummaryOf(pairs, read)
  {
    if pairs == [] {
      return None;
    }
    ghost var details := DetailsOf(pairs, read);
    var r := InitialSummary(|pairs|);
    for i := 0 to |pairs|
      invariant r == Tally(InitialSummary(|pairs|), details[..i])
    {
      assert details[..i + 1][..i] == details[..i];
      var pair := pairs[i];
      var isIdentical, diffCount := CompareFilePair(pair, read);
      var result := Detail(pair.folder, isIdentical, diffCount, pair.file1, pair.file2);
      assert result == details[i];
      r := r.(details := r.details + [result]);
      if isIdentical {
        r := r.(identicalCount := r.identicalCount + 1);
      } else if diffCount > 0 {
        r := r.(differentCount := r.differentCount + 1);
        r := r.(totalDifferences := r.totalDifferences + diffCount);
        r := r.(differentFolders := r.differentFolders + [pair.folder]);
      } else {
        r := r.(errorCount := r.errorCount + 1);
      }
    }
    assert details[..|pairs|] == details;
    return Some(r);
  }

  // ---------------------------------------------------------------------------
  // Independent descriptions of what the counters count

  predicate IsIdentical(d: Detail) { d.isIdentical }
  predicate HasDifferences(d: Detail) { d.differences > 0 }
  predicate IsError(d: Detail) { d.differences == ErrorSentinel }

  /** The shape every result of `_compare_file_pair` has. */
  predicate WellFormed(d: Detail)
  {
    && (d.isIdentical ==> d.differences == 0)
    && (!d.isIdentical ==> d.differences == ErrorSentinel || d.differences > 0)
  }

  function CountIf(details: seq<Detail>, p: Detail -> bool): nat
  {
    if details == [] then 0
    else CountIf(details[..|details| - 1], p) + (if p(details[|details| - 1]) then 1 else 0)
  }

  function FoldersIf(details: seq<Detail>, p: Detail -> bool): seq<string>
  {
    if details == [] then []
    else FoldersIf(details[..|details| - 1], p) + (if p(details[|details| - 1]) then [details[|details| - 1].folder] else [])
  }

  function SumIf(details: seq<Detail>, p: Detail -> bool): int
  {
    if details == [] then 0
    else SumIf(details[..|details| - 1], p) + (if p(details[|details| - 1]) then details[|details| - 1].differences else 0)
  }

  /** On well-formed details the counters count the identical, positive and sentinel
      results, which partition the details; different_folders lists the folders with
      a positive count in order, and total_differences adds those counts. */
  lemma TallyMeaning(n: nat, details: seq<Detail>)
    requires forall i :: 0 <= i < |details| ==> WellFormed(details[i])
    ensures var s := Tally(InitialSummary(n), details);
      && s.totalFolders == n
      && s.details == details
      && s.identicalCount == CountIf(details, IsIdentical)
      && s.differentCount == CountIf(details, HasDifferences)
      && s.errorCount == CountIf(details, IsError)
      && s.identicalCount + s.differentCount + s.errorCount == |details|
      && s.differentFolders == FoldersIf(details, HasDifferences)
      && |s.differentFolders| == s.differentCount
      && s.totalDifferences == SumIf(details, HasDifferences)
      && s.totalDifferences >= s.differentCount
  {
    TallyKeepsDetails(n, details);
    TallyCounts(n, details);
    TallyDifferent(n, details);
    ResultsPartition(details);
    PositiveSums(details);
  }

  lemma {:induction false} TallyKeepsDetails(n: nat, details: seq<Detail>)
    ensures Tally(InitialSummary(n), details).totalFolders == n
    ensures Tally(InitialSummary(n), details).details == details
  {
    if details != [] {
      TallyKeepsDetails(n, details[..|details| - 1]);
      assert details == details[..|details| - 1] + [details[|details| - 1]];
    }
  }

  lemma {:induction false} TallyCounts(n: nat, details: seq<Detail>)
    requires forall i :: 0 <= i < |details| ==> WellFormed(details[i])
    ensures var s := Tally(InitialSummary(n), details);
      && s.identicalCount == CountIf(details, IsIdentical)
      && s.differentCount == CountIf(details, HasDifferences)
      && s.errorCount == CountIf(details, IsError)
  {
    if details != [] {
      TallyCounts(n, details[..|details| - 1]);
      assert WellFormed(details[|details| - 1]);
    }
  }

  lemma {:induction false} TallyDifferent(n: nat, details: seq<Detail>)
    requires forall i :: 0 <= i < |details| ==> WellFormed(details[i])
    ensures var s := Tally(InitialSummary(n), details);
      && s.differentFolders == FoldersIf(details, HasDifferences)
      && s.totalDifferences == SumIf(details, HasDifferences)
  {
    if details != [] {
      TallyDifferent(n, details[..|details| - 1]);
      assert WellFormed(details[|details| - 1]);
    }
  }

  /** Well-formed results are exactly one of identical, positive or the sentinel. */
  lemma {:induction false} ResultsPartition(details: seq<Detail>)
    requires forall i :: 0 <= i < |details| ==> WellFormed(details[i])
    ensures CountIf(details, IsIdentical) + CountIf(details, HasDifferences) + CountIf(details, IsError) == |details|
  {
    if details != [] {
      ResultsPartition(details[..|details| - 1]);
      assert WellFormed(details[|details| - 1]);
    }
  }

  lemma {:induction false} PositiveSums(details: seq<Detail>)
    ensures |FoldersIf(details, HasDifferences)| == CountIf(details, HasDifferences)
    ensures SumIf(details, HasDifferences) >= CountIf(details, HasDifferences)
  {
    if details != [] {
      PositiveSums(details[..|details| - 1]);
    }
  }

  /** Every result of `_compare_file_pair` is well formed, and the error sentinel marks
      exactly the pairs whose reading failed or whose differ output has an empty line. */
  lemma DetailsWellFormed(pairs: seq<FilePair>, read: Reader)
    ensures var details := DetailsOf(pairs, read);
      && |details| == |pairs|
      && (forall i :: 0 <= i < |details| ==> WellFormed(details[i]))
      && (forall i :: 0 <= i < |details| ==>
            (IsError(details[i]) <==>
              var out := read(pairs[i].file1, pairs[i].file2);
              out.ReadError? || !NoEmptyLines(out.diff)))
  {
  }

  /** After `run`: identical_count + different_count + error_count = total_folders, the
      error count is the number of pairs that raised, and the different folders are
      listed in order with total_differences at least their number. */
  lemma RunCounters(pairs: seq<FilePair>, read: Reader)
    ensures var s := SummaryOf(pairs, read);
      && s.identicalCount + s.differentCount + s.errorCount == s.totalFolders == |pairs|
      && s.errorCount == CountIf(DetailsOf(pairs, read), IsError)
      && s.differentFolders == FoldersIf(DetailsOf(pairs, read), HasDifferences)
      && |s.differentFolders| == s.differentCount
      && s.totalDifferences >= s.differentCount
  {
    DetailsWellFormed(pairs, read);
    TallyMeaning(|pairs|, DetailsOf(pairs, read));
  }
}
