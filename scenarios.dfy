/** Concrete runs of the model on small differ outputs and folders. */
module Scenarios {
  import opened Wrappers
  import opened DiffClassifier
  import NcComparator
  import TxtComparator

  /** Consuming one more non-empty line is one step of the loop. */
  lemma ScanSnoc(p: seq<string>, line: string)
    requires Scan(p).Ok? && line != []
    ensures Scan(p + [line]) == Ok(Step(Scan(p).value, line))
  {
    assert (p + [line])[..|p|] == p;
  }

  lemma ScanOne(l0: string)
    requires l0 != []
    ensures Scan([l0]) == Ok(Step(Fold([], 0), l0))
  {
    ScanSnoc([], l0);
    assert [] + [l0] == [l0];
  }

  lemma ScanTwo(l0: string, l1: string)
    requires l0 != [] && l1 != []
    ensures Scan([l0, l1]) == Ok(Step(Step(Fold([], 0), l0), l1))
  {
    ScanOne(l0);
    ScanSnoc([l0], l1);
    assert [l0] + [l1] == [l0, l1];
  }

  // ---------------------------------------------------------------------------
  // The scenarios, over lines of the given kinds

  lemma AppendedAfterCommon(common: string, added: string)
    requires TagOf(common) == CommonLine && TagOf(added) == PlusLine
    ensures Classify([common, added]) == Ok([DiffRecord(Added, Line(2), Payload(added))])
  {
    ScanTwo(common, added);
    assert Step(Fold([], 0), common) == Fold([], 1);
    assert [] + [DiffRecord(Added, Line(2), Payload(added))] == [DiffRecord(Added, Line(2), Payload(added))];
    assert Step(Fold([], 1), added) == Fold([DiffRecord(Added, Line(2), Payload(added))], 2);
  }

  lemma RemovedAfterCommon(common: string, removed: string)
    requires TagOf(common) == CommonLine && TagOf(removed) == MinusLine
    ensures Classify([common, removed]) == Ok([DiffRecord(Deleted, Line(2), Payload(removed))])
  {
    ScanTwo(common, removed);
    assert Step(Fold([], 0), common) == Fold([], 1);
    assert [] + [DiffRecord(Deleted, Line(2), Payload(removed))] == [DiffRecord(Deleted, Line(2), Payload(removed))];
    assert Step(Fold([], 1), removed) == Fold([DiffRecord(Deleted, Line(2), Payload(removed))], 1);
  }

  lemma DeletionThenHint(removed: string, hint: string)
    requires TagOf(removed) == MinusLine && TagOf(hint) == HintLine
    ensures Scan([removed, hint]) ==
      Ok(Fold([DiffRecord(Changed, Line(1), Payload(removed)), DiffRecord(ChangedTo, NoLine, Payload(hint))], 0))
  {
    ScanTwo(removed, hint);
    var r1 := [DiffRecord(Deleted, Line(1), Payload(removed))];
    assert [] + r1 == r1;
    assert Step(Fold([], 0), removed) == Fold(r1, 0);
    assert OpenDeletion(r1);
    assert Promote(r1, hint) == [DiffRecord(Changed, Line(1), Payload(removed)), DiffRecord(ChangedTo, NoLine, Payload(hint))];
    assert Step(Fold(r1, 0), hint) == Fold(Promote(r1, hint), 0);
  }

  lemma ReplacementPrefix(removed: string, hint1: string, added: string)
    requires TagOf(removed) == MinusLine && TagOf(hint1) == HintLine && TagOf(added) == PlusLine
    ensures Scan([removed, hint1, added]) == Ok(Fold([
      DiffRecord(Changed, Line(1), Payload(removed)),
      DiffRecord(ChangedTo, NoLine, Payload(hint1)),
      DiffRecord(Added, Line(1), Payload(added))], 1))
  {
    DeletionThenHint(removed, hint1);
    var r2 := [DiffRecord(Changed, Line(1), Payload(removed)), DiffRecord(ChangedTo, NoLine, Payload(hint1))];
    ScanSnoc([removed, hint1], added);
    assert [removed, hint1] + [added] == [removed, hint1, added];
    var r3 := r2 + [DiffRecord(Added, Line(1), Payload(added))];
    assert Step(Fold(r2, 0), added) == Fold(r3, 1);
    assert r3 == [r2[0], r2[1], DiffRecord(Added, Line(1), Payload(added))];
  }

  lemma Replacement(removed: string, hint1: string, added: string, hint2: string)
    requires TagOf(removed) == MinusLine && TagOf(hint1) == HintLine
    requires TagOf(added) == PlusLine && TagOf(hint2) == HintLine
    ensures Classify([removed, hint1, added, hint2]) == Ok([
      DiffRecord(Changed, Line(1), Payload(removed)),
      DiffRecord(ChangedTo, NoLine, Payload(hint1)),
      DiffRecord(Added, Line(1), Payload(added))])
  {
    ReplacementPrefix(removed, hint1, added);
    var r3 := [
      DiffRecord(Changed, Line(1), Payload(removed)),
      DiffRecord(ChangedTo, NoLine, Payload(hint1)),
      DiffRecord(Added, Line(1), Payload(added))];
    ScanSnoc([removed, hint1, added], hint2);
    assert [removed, hint1, added] + [hint2] == [removed, hint1, added, hint2];
    assert !OpenDeletion(r3);
    assert Step(Fold(r3, 1), hint2) == Fold(r3, 1);
  }

  lemma EmptyAfterCommon(common: string)
    requires TagOf(common) == CommonLine
    ensures Classify([common, ""]) == Err(IndexOutOfRange(1))
  {
    ScanOne(common);
    assert [common, ""][..1] == [common];
    assert Scan([common]).Ok?;
  }

  // ---------------------------------------------------------------------------
  // Concrete differ lines

  lemma CommonLineFacts()
    ensures TagOf("  a\n") == CommonLine
  {
  }

  lemma AddedLineFacts()
    ensures TagOf("+ b") == PlusLine && Payload("+ b") == "b"
  {
    assert "+ b"[2..] == "b";
  }

  lemma DeletedLineFacts()
    ensures TagOf("- b") == MinusLine && Payload("- b") == "b"
  {
    assert "- b"[2..] == "b";
  }

  lemma ReplacementLineFacts()
    ensures TagOf("- abc\n") == MinusLine && Payload("- abc\n") == "abc"
    ensures TagOf("? ^\n") == HintLine && Payload("? ^\n") == "^"
    ensures TagOf("+ xbc\n") == PlusLine && Payload("+ xbc\n") == "xbc"
  {
    assert "- abc\n"[2..] == "abc\n" && "abc\n"[..3] == "abc";
    assert "? ^\n"[2..] == "^\n" && "^\n"[..1] == "^";
    assert "+ xbc\n"[2..] == "xbc\n" && "xbc\n"[..3] == "xbc";
  }

  /** One line appended to the second file: an addition numbered one past the common line. */
  lemma AppendedLine()
    ensures Classify(["  a\n", "+ b"]) == Ok([DiffRecord(Added, Line(2), "b")])
  {
    CommonLineFacts();
    AddedLineFacts();
    AppendedAfterCommon("  a\n", "+ b");
  }

  /** The last line removed from the first file: a deletion at line 2. */
  lemma RemovedLastLine()
    ensures Classify(["  a\n", "- b"]) == Ok([DiffRecord(Deleted, Line(2), "b")])
  {
    CommonLineFacts();
    DeletedLineFacts();
    RemovedAfterCommon("  a\n", "- b");
  }

  /** A near-match replacement: the hint after the '-' line promotes it to a change and
      records the hint's payload; the hint after the '+' line is ignored. */
  lemma ReplacedLine()
    ensures Classify(["- abc\n", "? ^\n", "+ xbc\n", "? ^\n"]) == Ok([
      DiffRecord(Changed, Line(1), "abc"),
      DiffRecord(ChangedTo, NoLine, "^"),
      DiffRecord(Added, Line(1), "xbc")])
  {
    ReplacementLineFacts();
    Replacement("- abc\n", "? ^\n", "+ xbc\n", "? ^\n");
  }

  /** An empty differ line raises IndexError at its position, and the pair is an error. */
  lemma EmptyLineRaises()
    ensures Classify(["  a\n", ""]) == Err(IndexOutOfRange(1))
    ensures TxtComparator.ResultOf(Aligned(["  a\n", ""], 1, 1)) == TxtComparator.PairResult(false, -1)
  {
    CommonLineFacts();
    EmptyAfterCommon("  a\n");
  }

  /** A folder with a single file of an extension yields no comparison for it, while an
      extension with two files is compared using the first two in sorted order. */
  lemma SingleFileSkipped(folder: string, read: NcComparator.Reader)
    ensures var byExt := map[".nc" := ["x.nc"], ".txt" := ["a.txt", "b.txt"]];
      var cs := NcComparator.FolderComparisons(folder, [".nc", ".txt"], byExt, read);
      |cs| == 1 && cs[0].ext == ".txt"
      && (!cs[0].Failed? ==> cs[0].file1 == "a.txt" && cs[0].file2 == "b.txt")
  {
    var byExt := map[".nc" := ["x.nc"], ".txt" := ["a.txt", "b.txt"]];
    var exts := [".nc", ".txt"];
    assert exts[..1] == [".nc"] && exts[..1][..0] == [];
    assert NcComparator.HasBuckets(exts[..1], byExt);
    assert NcComparator.FolderComparisons(folder, exts[..1], byExt, read) == [];
    var files := byExt[".txt"];
    assert files[0] == "a.txt" && files[1] == "b.txt";
  }

  /** A comparator built without an argument compares `.nc` and `.txt` files and has
      listed no different pair yet. */
  method DefaultComparator() returns (c: NcComparator.BatchFileComparator)
    ensures c.fileExts == [".nc", ".txt"] && c.differentFiles == []
  {
    c := new NcComparator.BatchFileComparator();
    NcComparator.DefaultExtsLower();
  }
}
