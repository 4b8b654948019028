/**
 * A second, declarative description of what the classifier reports, record by
 * record, without the loop's running state: which input lines yield a record,
 * with which kind, line number and content.  The theorem at the end says the
 * loop computes exactly this.
 */
module DiffReference {
  import opened Wrappers
  import opened DiffClassifier

  /** The tag of the first '-', '+' or '?' line of `s`, if any. */
  function FirstMarker(s: seq<string>): Option<Tag>
  {
    if s == [] then None
    else if IsMarker(TagOf(s[0])) then Some(TagOf(s[0]))
    else FirstMarker(s[1..])
  }

  /** Line `i` yields a record: it is a '-' or '+' line, or a hint line whose last
      marker line before it is a '-' line. */
  predicate Emits(diff: seq<string>, i: nat)
    requires i < |diff|
  {
    match TagOf(diff[i])
    case MinusLine => true
    case PlusLine => true
    case HintLine => AfterDeletion(diff[..i])
    case _ => false
  }

  /** The number of common and '+' lines before line `i`. */
  function LinesBefore(diff: seq<string>, i: nat): nat
    requires i <= |diff|
  {
    CountTag(diff[..i], CommonLine) + CountTag(diff[..i], PlusLine)
  }

  /** The record line `i` yields.  A '-' line is reported as changed exactly when the
      next marker line after it is a hint line; '-' and '+' lines are numbered one
      past the common and '+' lines before them. */
  function RecordAt(diff: seq<string>, i: nat): DiffRecord
    requires i < |diff| && Emits(diff, i)
  {
    match TagOf(diff[i])
    case MinusLine =>
      var kind := if FirstMarker(diff[i + 1..]) == Some(HintLine) then Changed else Deleted;
      DiffRecord(kind, Line(LinesBefore(diff, i) + 1), Payload(diff[i]))
    case PlusLine => DiffRecord(Added, Line(LinesBefore(diff, i) + 1), Payload(diff[i]))
    case _ => DiffRecord(ChangedTo, NoLine, Payload(diff[i]))
  }

  /** The records yielded by the first `n` lines, in input order. */
  function RecordsUpTo(diff: seq<string>, n: nat): seq<DiffRecord>
    requires n <= |diff|
  {
    if n == 0 then []
    else RecordsUpTo(diff, n - 1) + (if Emits(diff, n - 1) then [RecordAt(diff, n - 1)] else [])
  }

  function Reference(diff: seq<string>): seq<DiffRecord>
  {
    RecordsUpTo(diff, |diff|)
  }

  // ---------------------------------------------------------------------------

  lemma {:induction false} FirstMarkerNone(s: seq<string>)
    ensures FirstMarker(s).None? <==> forall j :: 0 <= j < |s| ==> !IsMarker(TagOf(s[j]))
  {
    if s != [] {
      FirstMarkerNone(s[1..]);
      assert forall j :: 0 < j < |s| ==> s[j] == s[1..][j - 1];
    }
  }

  lemma {:induction false} FirstMarkerAppend(s: seq<string>, line: string)
    ensures FirstMarker(s + [line]) ==
      if FirstMarker(s).Some? then FirstMarker(s)
      else if IsMarker(TagOf(line)) then Some(TagOf(line)) else None
  {
    if s == [] {
      assert [line][1..] == [];
    } else {
      assert (s + [line])[1..] == s[1..] + [line];
      FirstMarkerAppend(s[1..], line);
    }
  }

  /** Appending a line that is not a promoting hint leaves the report of every
      earlier '-' line's kind alone: whether its next marker is a hint does not change. */
  lemma NextHintUnchanged(p: seq<string>, line: string, i: nat)
    requires i < |p| && TagOf(p[i]) == MinusLine
    requires TagOf(line) != HintLine || !AfterDeletion(p) || i != LastMarkerAt(p).value
    ensures (FirstMarker(p[i + 1..]) == Some(HintLine)) <==> (FirstMarker((p + [line])[i + 1..]) == Some(HintLine))
  {
    assert (p + [line])[i + 1..] == p[i + 1..] + [line];
    FirstMarkerAppend(p[i + 1..], line);
    if FirstMarker(p[i + 1..]).None? && TagOf(line) == HintLine {
      FirstMarkerNone(p[i + 1..]);
      forall j | i < j < |p| ensures !IsMarker(TagOf(p[j])) {
        assert p[j] == p[i + 1..][j - i - 1];
      }
      LastMarkerIs(p, i);
      assert false;
    }
  }

  /** A marker line with no marker line after it is the last marker line. */
  lemma LastMarkerIs(p: seq<string>, i: nat)
    requires i < |p| && IsMarker(TagOf(p[i]))
    requires forall j :: i < j < |p| ==> !IsMarker(TagOf(p[j]))
    ensures LastMarkerAt(p) == Some(i)
  {
  }

  /** The records of the first `n` lines depend only on those lines and on which
      '-' lines among them are followed by a hint. */
  lemma {:induction false} RecordsUpToAppend(p: seq<string>, line: string, n: nat)
    requires n <= |p|
    requires forall i :: 0 <= i < n && TagOf(p[i]) == MinusLine ==>
      ((FirstMarker(p[i + 1..]) == Some(HintLine)) <==> (FirstMarker((p + [line])[i + 1..]) == Some(HintLine)))
    ensures RecordsUpTo(p + [line], n) == RecordsUpTo(p, n)
  {
    if n > 0 {
      var q := p + [line];
      RecordsUpToAppend(p, line, n - 1);
      var i := n - 1;
      assert q[..i] == p[..i];
      assert q[i] == p[i];
      if Emits(p, i) {
        assert RecordAt(q, i) == RecordAt(p, i);
      }
    }
  }

  /** Lines that are not marker lines yield nothing. */
  lemma {:induction false} RecordsUpToSkips(diff: seq<string>, m: nat, n: nat)
    requires m <= n <= |diff|
    requires forall j :: m <= j < n ==> !IsMarker(TagOf(diff[j]))
    ensures RecordsUpTo(diff, n) == RecordsUpTo(diff, m)
  {
    if m < n {
      RecordsUpToSkips(diff, m, n - 1);
    }
  }

  /** The loop computes the declarative description, for every input it does not raise on. */
  lemma {:induction false} ClassifyMatchesReference(diff: seq<string>)
    requires NoEmptyLines(diff)
    ensures Classify(diff) == Ok(Reference(diff))
  {
    FailsOnlyOnEmptyLine(diff);
    MatchesOnPrefix(diff);
  }

  lemma {:induction false} MatchesOnPrefix(diff: seq<string>)
    requires Scan(diff).Ok?
    ensures Scan(diff).value.records == Reference(diff)
  {
    if diff != [] {
      var p := diff[..|diff| - 1];
      var line := diff[|diff| - 1];
      assert diff == p + [line];
      MatchesOnPrefix(p);
      if TagOf(line) == HintLine && AfterDeletion(p) {
        MatchesAfterPromotion(p, line);
      } else {
        MatchesWithoutPromotion(p, line);
      }
    }
  }

  /** Step case: a hint line promotes the record of the last '-' line. */
  lemma MatchesAfterPromotion(p: seq<string>, line: string)
    requires Scan(p).Ok? && Scan(p).value.records == Reference(p)
    requires TagOf(line) == HintLine && AfterDeletion(p)
    ensures Scan(p + [line]).Ok? && Scan(p + [line]).value.records == Reference(p + [line])
  {
    var diff := p + [line];
    var k := LastMarkerAt(p).value;
    PromotionRule(p, line);
    RecordsEndAtLastMarker(p);
    PromotedRecords(p, line);
    var rk := RecordAt(p, k);
    var records := Scan(p).value.records;
    var changedTo := DiffRecord(ChangedTo, NoLine, Payload(line));
    assert records[..|records| - 1] == RecordsUpTo(p, k) && records[|records| - 1] == rk;
    assert Promote(records, line) == RecordsUpTo(p, k) + [rk.(kind := Changed), changedTo];
    LastRecordOfHint(p, line);
  }

  /** The promoting hint itself yields the changed-to record. */
  lemma LastRecordOfHint(p: seq<string>, line: string)
    requires TagOf(line) == HintLine && AfterDeletion(p)
    ensures Reference(p + [line]) == RecordsUpTo(p + [line], |p|) + [DiffRecord(ChangedTo, NoLine, Payload(line))]
  {
    var diff := p + [line];
    assert diff[..|p|] == p && diff[|p|] == line;
    assert Emits(diff, |p|);
    assert RecordAt(diff, |p|) == DiffRecord(ChangedTo, NoLine, Payload(line));
  }

  /** The records of a prefix whose last marker line is a '-' line end with that line's record. */
  lemma RecordsEndAtLastMarker(p: seq<string>)
    requires AfterDeletion(p)
    ensures Emits(p, LastMarkerAt(p).value)
    ensures Reference(p) == RecordsUpTo(p, LastMarkerAt(p).value) + [RecordAt(p, LastMarkerAt(p).value)]
  {
    RecordsEndAt(p, LastMarkerAt(p).value);
  }

  lemma RecordsEndAt(p: seq<string>, k: nat)
    requires k < |p| && TagOf(p[k]) == MinusLine
    requires forall j :: k < j < |p| ==> !IsMarker(TagOf(p[j]))
    ensures Emits(p, k)
    ensures Reference(p) == RecordsUpTo(p, k) + [RecordAt(p, k)]
  {
    RecordsUpToSkips(p, k + 1, |p|);
  }

  /** After a promoting hint, the records of the earlier lines are those of the prefix with
      the last one turned into a change. */
  lemma PromotedRecords(p: seq<string>, line: string)
    requires TagOf(line) == HintLine && AfterDeletion(p)
    ensures Emits(p, LastMarkerAt(p).value)
    ensures RecordsUpTo(p + [line], |p|)
      == RecordsUpTo(p, LastMarkerAt(p).value) + [RecordAt(p, LastMarkerAt(p).value).(kind := Changed)]
  {
    var diff := p + [line];
    var k := LastMarkerAt(p).value;
    RecordsBeforeKept(p, line);
    PromotedRecord(p, line);
    forall j | k + 1 <= j < |p| ensures !IsMarker(TagOf(diff[j])) {
      assert diff[j] == p[j];
    }
    RecordsUpToSkips(diff, k + 1, |p|);
  }

  /** The records before the last '-' line are untouched by a promoting hint. */
  lemma RecordsBeforeKept(p: seq<string>, line: string)
    requires TagOf(line) == HintLine && AfterDeletion(p)
    ensures RecordsUpTo(p + [line], LastMarkerAt(p).value) == RecordsUpTo(p, LastMarkerAt(p).value)
  {
    var diff := p + [line];
    var k := LastMarkerAt(p).value;
    forall i | 0 <= i < k && TagOf(p[i]) == MinusLine
      ensures (FirstMarker(p[i + 1..]) == Some(HintLine)) <==> (FirstMarker(diff[i + 1..]) == Some(HintLine))
    {
      NextHintUnchanged(p, line, i);
    }
    RecordsUpToAppend(p, line, k);
  }

  /** The last '-' line's record was a deletion and becomes a change. */
  lemma PromotedRecord(p: seq<string>, line: string)
    requires TagOf(line) == HintLine && AfterDeletion(p)
    ensures var k := LastMarkerAt(p).value;
      && TagOf(p[k]) == MinusLine
      && Emits(p, k) && Emits(p + [line], k)
      && RecordAt(p, k).kind == Deleted
      && RecordAt(p + [line], k) == RecordAt(p, k).(kind := Changed)
  {
    var diff := p + [line];
    var k := LastMarkerAt(p).value;
    NextMarkerAfterLast(p, line);
    assert diff[..k] == p[..k] && diff[k] == p[k];
    assert LinesBefore(diff, k) == LinesBefore(p, k);
  }

  /** After the last marker line of `p` comes no marker line, and then the appended hint. */
  lemma NextMarkerAfterLast(p: seq<string>, line: string)
    requires TagOf(line) == HintLine && AfterDeletion(p)
    ensures var k := LastMarkerAt(p).value;
      && FirstMarker(p[k + 1..]).None?
      && FirstMarker((p + [line])[k + 1..]) == Some(HintLine)
  {
    var k := LastMarkerAt(p).value;
    FirstMarkerNone(p[k + 1..]);
    assert (p + [line])[k + 1..] == p[k + 1..] + [line];
    FirstMarkerAppend(p[k + 1..], line);
  }

  /** Step case: any other non-empty line leaves earlier records alone and appends at most one. */
  lemma MatchesWithoutPromotion(p: seq<string>, line: string)
    requires Scan(p).Ok? && Scan(p).value.records == Reference(p)
    requires line != [] && !(TagOf(line) == HintLine && AfterDeletion(p))
    ensures Scan(p + [line]).Ok? && Scan(p + [line]).value.records == Reference(p + [line])
  {
    var diff := p + [line];
    var np := |p|;
    assert diff[..np] == p;
    CounterCountsCommonAndAdded(p);
    OpenDeletionTracksLastMarker(p);
    forall i | 0 <= i < np && TagOf(p[i]) == MinusLine
      ensures (FirstMarker(p[i + 1..]) == Some(HintLine)) <==> (FirstMarker(diff[i + 1..]) == Some(HintLine))
    {
      NextHintUnchanged(p, line, i);
    }
    RecordsUpToAppend(p, line, np);
    if Emits(diff, np) {
      assert diff[np + 1..] == [];
    }
  }

  /** Consequences: each '-' and '+' line is numbered one past the common and '+' lines
      before it, each record's content is its line's payload, and a '-' line's record
      is a change exactly when a hint line is the next marker line after it. */
  lemma RecordOfDeletion(diff: seq<string>, i: nat)
    requires NoEmptyLines(diff) && i < |diff| && TagOf(diff[i]) == MinusLine
    ensures RecordAt(diff, i).line == Line(CountTag(diff[..i], CommonLine) + CountTag(diff[..i], PlusLine) + 1)
    ensures RecordAt(diff, i).content == Payload(diff[i])
    ensures RecordAt(diff, i).kind == Changed <==> FirstMarker(diff[i + 1..]) == Some(HintLine)
    ensures Classify(diff).Ok? && RecordAt(diff, i) in Classify(diff).value
  {
    ClassifyMatchesReference(diff);
    EmittedIsReported(diff, i, |diff|);
  }

  lemma {:induction false} EmittedIsReported(diff: seq<string>, i: nat, n: nat)
    requires i < n <= |diff| && Emits(diff, i)
    ensures RecordAt(diff, i) in RecordsUpTo(diff, n)
  {
    if i < n - 1 {
      EmittedIsReported(diff, i, n - 1);
      RecordsUpToExtends(diff, n, RecordAt(diff, i));
    } else {
      assert RecordsUpTo(diff, n) == RecordsUpTo(diff, n - 1) + [RecordAt(diff, i)];
    }
  }

  /** A record yielded by the first `n - 1` lines is among those of the first `n`. */
  lemma RecordsUpToExtends(diff: seq<string>, n: nat, r: DiffRecord)
    requires 0 < n <= |diff| && r in RecordsUpTo(diff, n - 1)
    ensures r in RecordsUpTo(diff, n)
  {
    var before := RecordsUpTo(diff, n - 1);
    var tail := if Emits(diff, n - 1) then [RecordAt(diff, n - 1)] else [];
    assert RecordsUpTo(diff, n) == before + tail;
    var j :| 0 <= j < |before| && before[j] == r;
    assert (before + tail)[j] == r;
  }
}
