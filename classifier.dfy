/**
 * The difference classifier shared by both comparators (`_analyze_differences`).
 *
 * Its input is the output of a line differ: one string per aligned line, whose
 * first two characters say what the line is ("  " common, "- " only in the first
 * file, "+ " only in the second, "? " an intraline hint about the line before).
 * It folds that sequence, front to back, into records of four kinds, keeping a
 * running counter `lineNum`.
 */
module DiffClassifier {
  import opened Wrappers


  /** What a differ line is, judged the way the classifier judges it. */
  datatype Tag = CommonLine | MinusLine | PlusLine | HintLine | OtherLine | EmptyLine

  function TagOf(line: string): Tag
  {
    if |line| >= 2 && line[0] == ' ' && line[1] == ' ' then CommonLine
    else if |line| == 0 then EmptyLine
    else if line[0] == '-' then MinusLine
    else if line[0] == '+' then PlusLine
    else if line[0] == '?' then HintLine
    else OtherLine
  }

  /** Lines that can emit or promote a record. */
  predicate IsMarker(t: Tag)
  {
    t == MinusLine || t == PlusLine || t == HintLine
  }

  /** The record kinds: 删除 (deleted), 添加 (added), 变化 (changed), 变化后内容 (changed-to content). */
  datatype Kind = Deleted | Added | Changed | ChangedTo

  /** The `line` field: a 1-based line number, or the empty string of a changed-to record. */
  datatype LineField = Line(n: nat) | NoLine

  datatype DiffRecord = DiffRecord(kind: Kind, line: LineField, content: string)

  /** `line[0]` on an empty differ line raises IndexError; `at` is that line's index. */
  datatype ClassifyError = IndexOutOfRange(at: nat)

  datatype Result<T> = Ok(value: T) | Err(error: ClassifyError)

  /** The loop's state: the records emitted so far and the counter. */
  datatype Fold = Fold(records: seq<DiffRecord>, lineNum: nat)

  /** What reading and aligning a pair of files hands to the classifier:
      the differ's lines and the two files' line counts, or the failure. */
  datatype DifferOutput = Aligned(diff: seq<string>, lines1: nat, lines2: nat) | ReadError(message: string)

  /** `s.rstrip('\n')`: drops every trailing newline and nothing else. */
  function RStripNewlines(s: string): (r: string)
    ensures r <= s
    ensures r == [] || r[|r| - 1] != '\n'
    ensures forall i :: |r| <= i < |s| ==> s[i] == '\n'
  {
    if s != [] && s[|s| - 1] == '\n' then RStripNewlines(s[..|s| - 1]) else s
  }

  /** `line[2:]` (empty when the line is shorter), with trailing newlines stripped. */
  function Payload(line: string): string
  {
    RStripNewlines(if |line| >= 2 then line[2..] else [])
  }

  /** The dispatch on a line's first characters; only an empty line has no `line[0]`. */
  lemma TagMeaning(line: string)
    ensures TagOf(line) == EmptyLine <==> |line| == 0
    ensures TagOf(line) == CommonLine <==> |line| >= 2 && line[..2] == "  "
    ensures TagOf(line) == MinusLine <==> |line| >= 1 && line[0] == '-'
    ensures TagOf(line) == PlusLine <==> |line| >= 1 && line[0] == '+'
    ensures TagOf(line) == HintLine <==> |line| >= 1 && line[0] == '?'
  {
  }

  /** A record's content is the text after the two-character prefix, without its trailing
      newlines and with nothing else removed. */
  lemma PayloadMeaning(line: string)
    ensures |line| < 2 ==> Payload(line) == []
    ensures |line| >= 2 ==> Payload(line) <= line[2..]
    ensures Payload(line) == [] || Payload(line)[|Payload(line)| - 1] != '\n'
    ensures forall i :: 2 + |Payload(line)| <= i < |line| ==> line[i] == '\n'
  {
  }

  /** True when the last record is a deletion that a hint line may promote. */
  predicate OpenDeletion(records: seq<DiffRecord>)
  {
    |records| > 0 && records[|records| - 1].kind == Deleted
  }

  /** The last record becomes a change, followed by the hint's content. */
  function Promote(records: seq<DiffRecord>, hint: string): seq<DiffRecord>
    requires OpenDeletion(records)
  {
    var last := records[|records| - 1];
    records[..|records| - 1] + [last.(kind := Changed), DiffRecord(ChangedTo, NoLine, Payload(hint))]
  }

  /** One iteration of the loop on a non-empty line. */
  function Step(f: Fold, line: string): Fold
  {
    match TagOf(line)
    case CommonLine => f.(lineNum := f.lineNum + 1)
    case MinusLine => f.(records := f.records + [DiffRecord(Deleted, Line(f.lineNum + 1), Payload(line))])
    case PlusLine => Fold(f.records + [DiffRecord(Added, Line(f.lineNum + 1), Payload(line))], f.lineNum + 1)
    case HintLine => if OpenDeletion(f.records) then f.(records := Promote(f.records, line)) else f
    case _ => f
  }

  /** The state after the loop has consumed all of `diff`, or the IndexError it stops at. */
  function Scan(diff: seq<string>): Result<Fold>
  {
    if diff == [] then Ok(Fold([], 0))
    else
      var prev := Scan(diff[..|diff| - 1]);
      var line := diff[|diff| - 1];
      if prev.Err? then prev
      else if line == [] then Err(IndexOutOfRange(|diff| - 1))
      else Ok(Step(prev.value, line))
  }

  /** The list `_analyze_differences` returns, or the exception it raises. */
  function Classify(diff: seq<string>): Result<seq<DiffRecord>>
  {
    match Scan(diff)
    case Ok(f) => Ok(f.records)
    case Err(e) => Err(e)
  }

  /** The classifier loop itself. */
  method AnalyzeDifferences(diff: seq<string>) returns (r: Result<seq<DiffRecord>>)
    ensures r == Classify(diff)
  {
    var differences: seq<DiffRecord> := [];
    var lineNum: nat := 0;
    for i := 0 to |diff|
      invariant Scan(diff[..i]) == Ok(Fold(differences, lineNum))
    {
      var line := diff[i];
      assert diff[..i + 1][..i] == diff[..i] && diff[..i + 1][i] == line;
      ghost var f := Fold(differences, lineNum);
      if |line| >= 2 && line[0] == ' ' && line[1] == ' ' {
        assert Scan(diff[..i + 1]) == Ok(Step(f, line));
        lineNum := lineNum + 1;
        continue;
      }
      if |line| == 0 {
        ErrorPersists(diff, i + 1);
        return Err(IndexOutOfRange(i));
      }
      assert Scan(diff[..i + 1]) == Ok(Step(f, line));
      var prefix := line[0];
      var content := if |line| >= 2 then line[2..] else [];
      assert RStripNewlines(content) == Payload(line);
      if prefix == '-' {
        assert TagOf(line) == MinusLine;
        differences := differences + [DiffRecord(Deleted, Line(lineNum + 1), RStripNewlines(content))];
      } else if prefix == '+' {
        assert TagOf(line) == PlusLine;
        differences := differences + [DiffRecord(Added, Line(lineNum + 1), RStripNewlines(content))];
        lineNum := lineNum + 1;
      } else if prefix == '?' {
        assert TagOf(line) == HintLine;
        if |differences| > 0 && differences[|differences| - 1].kind == Deleted {
          PromoteInPlace(differences, line);
          differences := differences[|differences| - 1 := differences[|differences| - 1].(kind := Changed)];
          differences := differences + [DiffRecord(ChangedTo, NoLine, RStripNewlines(content))];
        }
      }
    }
    assert diff[..|diff|] == diff;
    return Ok(differences);
  }

  /** Promotion as the loop performs it: the last record's kind is updated in place, then
      the changed-to record is appended. */
  lemma PromoteInPlace(records: seq<DiffRecord>, hint: string)
    requires OpenDeletion(records)
    ensures records[|records| - 1 := records[|records| - 1].(kind := Changed)]
      + [DiffRecord(ChangedTo, NoLine, Payload(hint))] == Promote(records, hint)
  {
  }

  /** Once the loop has raised, the rest of the input does not matter. */
  lemma {:induction false} ErrorPersists(diff: seq<string>, n: nat)
    requires n <= |diff|
    requires Scan(diff[..n]).Err?
    ensures Scan(diff) == Scan(diff[..n])
    decreases |diff| - n
  {
    if n < |diff| {
      assert diff[..n + 1][..n] == diff[..n];
      ErrorPersists(diff, n + 1);
    } else {
      assert diff[..n] == diff;
    }
  }

  // ---------------------------------------------------------------------------
  // Counting lines of the input, independently of the loop

  /** The number of lines of `diff` with tag `t`. */
  function CountTag(diff: seq<string>, t: Tag): nat
  {
    if diff == [] then 0
    else CountTag(diff[..|diff| - 1], t) + (if TagOf(diff[|diff| - 1]) == t then 1 else 0)
  }

  /** The index of the last '-', '+' or '?' line of `diff`, if any. */
  function LastMarkerAt(diff: seq<string>): (k: Option<nat>)
    ensures k.Some? ==> k.value < |diff| && IsMarker(TagOf(diff[k.value]))
    ensures k.Some? ==> forall j :: k.value < j < |diff| ==> !IsMarker(TagOf(diff[j]))
    ensures k.None? ==> forall j :: 0 <= j < |diff| ==> !IsMarker(TagOf(diff[j]))
  {
    if diff == [] then None
    else if IsMarker(TagOf(diff[|diff| - 1])) then Some(|diff| - 1)
    else LastMarkerAt(diff[..|diff| - 1])
  }

  /** The last '-', '+' or '?' line of `diff` is a '-' line. */
  predicate AfterDeletion(diff: seq<string>)
  {
    var k := LastMarkerAt(diff);
    k.Some? && TagOf(diff[k.value]) == MinusLine
  }

  /** A hint line that comes where the last marker line before it is a '-' line. */
  predicate PromotingHint(prefix: seq<string>, line: string)
  {
    TagOf(line) == HintLine && AfterDeletion(prefix)
  }

  /** The number of promoting hint lines in `diff`. */
  function CountPromoting(diff: seq<string>): nat
  {
    if diff == [] then 0
    else CountPromoting(diff[..|diff| - 1]) + (if PromotingHint(diff[..|diff| - 1], diff[|diff| - 1]) then 1 else 0)
  }

  predicate NoEmptyLines(diff: seq<string>)
  {
    forall i :: 0 <= i < |diff| ==> diff[i] != []
  }

  // ---------------------------------------------------------------------------
  // Properties of the classifier

  /** The loop raises exactly when some differ line is empty, and then at the first one. */
  lemma {:induction false} FailsOnlyOnEmptyLine(diff: seq<string>)
    ensures Scan(diff).Ok? <==> NoEmptyLines(diff)
    ensures Scan(diff).Err? ==>
      var k := Scan(diff).error.at;
      k < |diff| && diff[k] == [] && NoEmptyLines(diff[..k])
  {
    if diff != [] {
      var p := diff[..|diff| - 1];
      FailsOnlyOnEmptyLine(p);
      assert forall i :: 0 <= i < |p| ==> p[i] == diff[i];
      if Scan(p).Err? {
        var k := Scan(p).error.at;
        assert diff[..k] == p[..k];
      } else if diff[|diff| - 1] == [] {
        assert diff[..|diff| - 1] == p;
      }
    }
  }

  /** After the loop, the counter is the number of common lines plus the number of '+' lines. */
  lemma {:induction false} CounterCountsCommonAndAdded(diff: seq<string>)
    requires Scan(diff).Ok?
    ensures Scan(diff).value.lineNum == CountTag(diff, CommonLine) + CountTag(diff, PlusLine)
  {
    if diff != [] {
      CounterCountsCommonAndAdded(diff[..|diff| - 1]);
    }
  }

  /** The last record is an unpromoted deletion exactly when the last marker line read is a '-' line. */
  lemma {:induction false} OpenDeletionTracksLastMarker(diff: seq<string>)
    requires Scan(diff).Ok?
    ensures OpenDeletion(Scan(diff).value.records) <==> AfterDeletion(diff)
  {
    if diff != [] {
      var p := diff[..|diff| - 1];
      OpenDeletionTracksLastMarker(p);
      if !IsMarker(TagOf(diff[|diff| - 1])) {
        var k := LastMarkerAt(p);
        assert k.Some? ==> diff[k.value] == p[k.value];
      }
    }
  }

  /** A hint line promotes the last record exactly when the last marker line before it is a
      '-' line; otherwise (after a '+' line, after another hint, or with no marker line
      before it) it changes nothing. */
  lemma PromotionRule(prefix: seq<string>, hint: string)
    requires Scan(prefix).Ok? && TagOf(hint) == HintLine
    ensures AfterDeletion(prefix) <==> OpenDeletion(Scan(prefix).value.records)
    ensures var f := Scan(prefix).value;
      Scan(prefix + [hint]) ==
        if AfterDeletion(prefix) then Ok(Fold(Promote(f.records, hint), f.lineNum)) else Ok(f)
  {
    assert (prefix + [hint])[..|prefix|] == prefix;
    OpenDeletionTracksLastMarker(prefix);
  }

  /** Two hint lines in a row: the second is always ignored. */
  lemma SecondHintIgnored(prefix: seq<string>, hint1: string, hint2: string)
    requires Scan(prefix).Ok? && TagOf(hint1) == HintLine && TagOf(hint2) == HintLine
    ensures Scan(prefix + [hint1, hint2]) == Scan(prefix + [hint1])
  {
    var p1 := prefix + [hint1];
    PromotionRule(prefix, hint1);
    assert LastMarkerAt(p1) == Some(|prefix|);
    PromotionRule(p1, hint2);
    assert p1 + [hint2] == prefix + [hint1, hint2];
  }

  /** One record per '-' line, per '+' line and per promoting hint line. */
  lemma {:induction false} RecordCount(diff: seq<string>)
    requires Scan(diff).Ok?
    ensures |Scan(diff).value.records|
         == CountTag(diff, MinusLine) + CountTag(diff, PlusLine) + CountPromoting(diff)
  {
    if diff != [] {
      var p := diff[..|diff| - 1];
      RecordCount(p);
      OpenDeletionTracksLastMarker(p);
    }
  }

  /** Each promotion consumes a distinct '-' line. */
  lemma {:induction false} PromotionsBoundedByDeletions(diff: seq<string>)
    ensures CountPromoting(diff) + (if AfterDeletion(diff) then 1 else 0) <= CountTag(diff, MinusLine)
  {
    if diff != [] {
      var p := diff[..|diff| - 1];
      PromotionsBoundedByDeletions(p);
      if !IsMarker(TagOf(diff[|diff| - 1])) {
        var k := LastMarkerAt(p);
        assert k.Some? ==> diff[k.value] == p[k.value];
      }
    }
  }

  /** The classifier reports nothing exactly when the input has no '-' and no '+' line. */
  lemma EmptyIffNoEdits(diff: seq<string>)
    requires Scan(diff).Ok?
    ensures Scan(diff).value.records == []
        <==> CountTag(diff, MinusLine) == 0 && CountTag(diff, PlusLine) == 0
  {
    RecordCount(diff);
    PromotionsBoundedByDeletions(diff);
  }

  /** Every changed-to record directly follows a changed record, and every changed record
      is directly followed by a changed-to record. */
  ghost predicate ChangesPaired(records: seq<DiffRecord>)
  {
    && (|records| > 0 ==> records[0].kind != ChangedTo && records[|records| - 1].kind != Changed)
    && forall k :: 0 < k < |records| ==> (records[k].kind == ChangedTo <==> records[k - 1].kind == Changed)
  }

  lemma {:induction false} MergeInvariant(diff: seq<string>)
    requires Scan(diff).Ok?
    ensures ChangesPaired(Scan(diff).value.records)
  {
    if diff != [] {
      var p := diff[..|diff| - 1];
      MergeInvariant(p);
      StepKeepsPairs(Scan(p).value, diff[|diff| - 1]);
    }
  }

  lemma StepKeepsPairs(f: Fold, line: string)
    requires ChangesPaired(f.records)
    ensures ChangesPaired(Step(f, line).records)
  {
    match TagOf(line)
    case MinusLine =>
      AppendKeepsPairs(f.records, DiffRecord(Deleted, Line(f.lineNum + 1), Payload(line)));
    case PlusLine =>
      AppendKeepsPairs(f.records, DiffRecord(Added, Line(f.lineNum + 1), Payload(line)));
    case HintLine =>
      if OpenDeletion(f.records) {
        PromoteKeepsPairs(f.records, line);
      }
    case _ =>
  }

  lemma AppendKeepsPairs(rs: seq<DiffRecord>, r: DiffRecord)
    requires ChangesPaired(rs)
    requires r.kind == Deleted || r.kind == Added
    ensures ChangesPaired(rs + [r])
  {
    var out := rs + [r];
    assert forall k :: 0 <= k < |rs| ==> out[k] == rs[k];
  }

  lemma PromoteKeepsPairs(rs: seq<DiffRecord>, line: string)
    requires ChangesPaired(rs) && OpenDeletion(rs)
    ensures ChangesPaired(Promote(rs, line))
  {
    var n := |rs|;
    var out := Promote(rs, line);
    assert |out| == n + 1;
    assert out[n - 1].kind == Changed && out[n].kind == ChangedTo;
    assert forall k :: 0 <= k < n - 1 ==> out[k] == rs[k];
    assert n >= 2 ==> rs[n - 2].kind != Changed;
  }

  /** Line numbers: deletions, additions and changes carry a number between 1 and the
      counter plus one, changed-to records carry none, and the numbers never decrease
      in output order. */
  ghost predicate WellNumbered(records: seq<DiffRecord>, lineNum: nat)
  {
    && (forall k :: 0 <= k < |records| ==> (records[k].kind == ChangedTo <==> records[k].line.NoLine?))
    && (forall k :: 0 <= k < |records| && records[k].line.Line? ==> 1 <= records[k].line.n <= lineNum + 1)
    && (forall j, k :: 0 <= j < k < |records| && records[j].line.Line? && records[k].line.Line? ==>
          records[j].line.n <= records[k].line.n)
  }

  lemma {:induction false} LineNumbersMonotone(diff: seq<string>)
    requires Scan(diff).Ok?
    ensures WellNumbered(Scan(diff).value.records, Scan(diff).value.lineNum)
  {
    if diff != [] {
      var p := diff[..|diff| - 1];
      LineNumbersMonotone(p);
      StepKeepsNumbering(Scan(p).value, diff[|diff| - 1]);
    }
  }

  lemma StepKeepsNumbering(f: Fold, line: string)
    requires WellNumbered(f.records, f.lineNum)
    ensures WellNumbered(Step(f, line).records, Step(f, line).lineNum)
  {
    match TagOf(line)
    case CommonLine =>
      NumberingWeakens(f.records, f.lineNum);
      assert Step(f, line) == Fold(f.records, f.lineNum + 1);
    case MinusLine =>
      var r := DiffRecord(Deleted, Line(f.lineNum + 1), Payload(line));
      AppendKeepsNumbering(f.records, f.lineNum, r);
      assert Step(f, line) == Fold(f.records + [r], f.lineNum);
    case PlusLine =>
      var r := DiffRecord(Added, Line(f.lineNum + 1), Payload(line));
      AppendKeepsNumbering(f.records, f.lineNum, r);
      NumberingWeakens(f.records + [r], f.lineNum);
      assert Step(f, line) == Fold(f.records + [r], f.lineNum + 1);
    case HintLine =>
      if OpenDeletion(f.records) {
        PromoteKeepsNumbering(f.records, f.lineNum, line);
        assert Step(f, line) == Fold(Promote(f.records, line), f.lineNum);
      } else {
        assert Step(f, line) == f;
      }
    case _ =>
      assert Step(f, line) == f;
  }

  lemma NumberingWeakens(rs: seq<DiffRecord>, lineNum: nat)
    requires WellNumbered(rs, lineNum)
    ensures WellNumbered(rs, lineNum + 1)
  {
  }

  lemma AppendKeepsNumbering(rs: seq<DiffRecord>, lineNum: nat, r: DiffRecord)
    requires WellNumbered(rs, lineNum)
    requires r.kind != ChangedTo && r.line == Line(lineNum + 1)
    ensures WellNumbered(rs + [r], lineNum)
  {
    var out := rs + [r];
    assert forall k :: 0 <= k < |rs| ==> out[k] == rs[k];
  }

  lemma PromoteKeepsNumbering(rs: seq<DiffRecord>, lineNum: nat, line: string)
    requires WellNumbered(rs, lineNum) && OpenDeletion(rs)
    ensures WellNumbered(Promote(rs, line), lineNum)
  {
    var n := |rs|;
    var out := Promote(rs, line);
    assert |out| == n + 1;
    assert forall k :: 0 <= k < n - 1 ==> out[k] == rs[k];
    assert out[n - 1].line == rs[n - 1].line && out[n].line == NoLine;
    assert out[n - 1].kind == Changed && out[n].kind == ChangedTo;
  }

  /** If the input has no '-' line, nothing is ever promoted. */
  lemma NoDeletionsNoChanges(diff: seq<string>)
    requires Scan(diff).Ok? && CountTag(diff, MinusLine) == 0
    ensures |Scan(diff).value.records| == CountTag(diff, PlusLine)
    ensures forall k :: 0 <= k < |Scan(diff).value.records| ==> Scan(diff).value.records[k].kind == Added
  {
    RecordCount(diff);
    PromotionsBoundedByDeletions(diff);
    OnlyAddedWithoutDeletions(diff);
  }

  lemma {:induction false} OnlyAddedWithoutDeletions(diff: seq<string>)
    requires Scan(diff).Ok? && CountTag(diff, MinusLine) == 0
    ensures forall k :: 0 <= k < |Scan(diff).value.records| ==> Scan(diff).value.records[k].kind == Added
  {
    if diff != [] {
      var p := diff[..|diff| - 1];
      OnlyAddedWithoutDeletions(p);
    }
  }
}
