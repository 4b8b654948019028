/**
 * Grouping one folder's file names by extension (the inner part of `_find_files`):
 * each name goes to the bucket of the first configured extension its lower-cased
 * form ends with, and every bucket is then sorted.
 */
module Bucketing {
  import opened Wrappers


  /** ASCII lower-casing of one character. */
  function LowerChar(c: char): char
  {
    if 'A' <= c <= 'Z' then (c as int + 32) as char else c
  }

  /** `s.lower()`, restricted to ASCII letters. */
  function Lower(s: string): (r: string)
    ensures |r| == |s|
    ensures forall i :: 0 <= i < |r| ==> !('A' <= r[i] <= 'Z')
    ensures forall i :: 0 <= i < |s| && !('A' <= s[i] <= 'Z') ==> r[i] == s[i]
    ensures forall i :: 0 <= i < |s| && 'A' <= s[i] <= 'Z' ==> r[i] as int - 'a' as int == s[i] as int - 'A' as int
  {
    seq(|s|, i requires 0 <= i < |s| => LowerChar(s[i]))
  }

  /** `s.endswith(suffix)`. */
  function EndsWith(s: string, suffix: string): (b: bool)
    ensures b <==> exists k :: 0 <= k <= |s| && s[k..] == suffix
  {
    if |suffix| <= |s| && s[|s| - |suffix|..] == suffix then true
    else
      assert forall k :: 0 <= k <= |s| && s[k..] == suffix ==> k == |s| - |suffix|;
      false
  }

  /** The position of the first extension in `exts` that `name` ends with: the extension
      the inner `for ext in self.file_exts: ... break` loop stops at. */
  function FirstMatch(exts: seq<string>, name: string): (m: Option<nat>)
    ensures m.Some? ==> m.value < |exts| && EndsWith(name, exts[m.value])
    ensures m.Some? ==> forall j :: 0 <= j < m.value ==> !EndsWith(name, exts[j])
    ensures m.None? ==> forall j :: 0 <= j < |exts| ==> !EndsWith(name, exts[j])
  {
    if exts == [] then None
    else if EndsWith(name, exts[0]) then Some(0)
    else match FirstMatch(exts[1..], name)
      case None => None
      case Some(k) => Some(k + 1)
  }

  /** The file `name` belongs in the bucket keyed by `ext`. */
  predicate InBucket(exts: seq<string>, name: string, ext: string)
  {
    var m := FirstMatch(exts, Lower(name));
    m.Some? && exts[m.value] == ext
  }

  /** The names of `names` that belong in the bucket of `ext`, in listing order. */
  function Matching(exts: seq<string>, names: seq<string>, ext: string): seq<string>
  {
    if names == [] then []
    else
      var last := names[|names| - 1];
      Matching(exts, names[..|names| - 1], ext) + (if InBucket(exts, last, ext) then [last] else [])
  }

  // ---------------------------------------------------------------------------
  // Python's ordering of strings and sorting by it

  /** `a <= b` on Python strings: lexicographic by code point, a prefix first. */
  predicate NameLe(a: string, b: string)
    decreases |a|
  {
    a == [] || (b != [] && (a[0] < b[0] || (a[0] == b[0] && NameLe(a[1..], b[1..]))))
  }

  lemma {:induction false} NameLeTotal(a: string, b: string)
    ensures NameLe(a, b) || NameLe(b, a)
    decreases |a|
  {
    if a != [] && b != [] && a[0] == b[0] {
      NameLeTotal(a[1..], b[1..]);
    }
  }

  lemma {:induction false} NameLeTransitive(a: string, b: string, c: string)
    requires NameLe(a, b) && NameLe(b, c)
    ensures NameLe(a, c)
    decreases |a|
  {
    if a != [] && a[0] == b[0] && b[0] == c[0] {
      NameLeTransitive(a[1..], b[1..], c[1..]);
    }
  }

  lemma {:induction false} NameLeReflexive(a: string)
    ensures NameLe(a, a)
    decreases |a|
  {
    if a != [] {
      NameLeReflexive(a[1..]);
    }
  }

  lemma {:induction false} NameLeAntisymmetric(a: string, b: string)
    requires NameLe(a, b) && NameLe(b, a)
    ensures a == b
    decreases |a|
  {
    if a != [] {
      NameLeAntisymmetric(a[1..], b[1..]);
      assert a == [a[0]] + a[1..] && b == [b[0]] + b[1..];
    }
  }

  ghost predicate Sorted(s: seq<string>)
  {
    forall i, j :: 0 <= i < j < |s| ==> NameLe(s[i], s[j])
  }

  /** An element not greater than the head of a sorted sequence is not greater than any. */
  lemma BelowHead(x: string, s: seq<string>)
    requires Sorted(s) && (s != [] ==> NameLe(x, s[0]))
    ensures forall j :: 0 <= j < |s| ==> NameLe(x, s[j])
  {
    forall j | 0 <= j < |s| ensures NameLe(x, s[j]) {
      if j > 0 { NameLeTransitive(x, s[0], s[j]); }
    }
  }

  lemma PrependSorted(x: string, s: seq<string>)
    requires Sorted(s) && forall j :: 0 <= j < |s| ==> NameLe(x, s[j])
    ensures Sorted([x] + s)
  {
    var r := [x] + s;
    forall i, j | 0 <= i < j < |r| ensures NameLe(r[i], r[j]) {
      assert r[j] == s[j - 1];
      if i > 0 { assert r[i] == s[i - 1]; }
    }
  }

  /** Every element of the insertion into the tail is at least the head. */
  lemma InsertAboveHead(x: string, s: seq<string>, rest: seq<string>)
    requires Sorted(s) && s != [] && NameLe(s[0], x)
    requires multiset(rest) == multiset(s[1..]) + multiset{x}
    ensures forall j :: 0 <= j < |rest| ==> NameLe(s[0], rest[j])
  {
    forall j | 0 <= j < |rest| ensures NameLe(s[0], rest[j]) {
      var y := rest[j];
      assert y in multiset(rest);
      if y != x {
        assert y in multiset(s[1..]);
        var k :| 0 <= k < |s[1..]| && s[1..][k] == y;
        assert s[k + 1] == y;
      }
    }
  }

  /** Inserts `x` before the first element it is not greater than. */
  function Insert(x: string, s: seq<string>): (r: seq<string>)
    requires Sorted(s)
    ensures Sorted(r) && multiset(r) == multiset(s) + multiset{x}
  {
    if s == [] || NameLe(x, s[0]) then
      BelowHead(x, s);
      PrependSorted(x, s);
      [x] + s
    else
      SortedTail(s);
      var rest := Insert(x, s[1..]);
      NameLeTotal(x, s[0]);
      TailMultiset(s);
      InsertAboveHead(x, s, rest);
      PrependSorted(s[0], rest);
      [s[0]] + rest
  }

  /** `list.sort()`: a sorted permutation. */
  function SortNames(s: seq<string>): (r: seq<string>)
    ensures Sorted(r) && multiset(r) == multiset(s)
  {
    if s == [] then []
    else
      assert s == [s[0]] + s[1..];
      Insert(s[0], SortNames(s[1..]))
  }

  lemma SortedHeadIsLeast(s: seq<string>, y: string)
    requires Sorted(s) && y in s
    ensures NameLe(s[0], y)
  {
    var k :| 0 <= k < |s| && s[k] == y;
    if k == 0 {
      NameLeReflexive(y);
    }
  }

  lemma SortedTail(s: seq<string>)
    requires Sorted(s) && s != []
    ensures Sorted(s[1..])
  {
    forall i, j | 0 <= i < j < |s| - 1 ensures NameLe(s[1..][i], s[1..][j]) {
      assert s[1..][i] == s[i + 1] && s[1..][j] == s[j + 1];
    }
  }

  /** Two sorted permutations of the same names start with the same name. */
  lemma SameHead(a: seq<string>, b: seq<string>)
    requires Sorted(a) && Sorted(b) && multiset(a) == multiset(b) && a != []
    ensures b != [] && a[0] == b[0]
  {
    assert a[0] in multiset(b);
    assert b[0] in multiset(a);
    SortedHeadIsLeast(a, b[0]);
    SortedHeadIsLeast(b, a[0]);
    NameLeAntisymmetric(a[0], b[0]);
  }

  lemma TailMultiset(a: seq<string>)
    requires a != []
    ensures multiset(a[1..]) == multiset(a) - multiset{a[0]}
  {
    assert a == [a[0]] + a[1..];
  }

  /** Sorting has one possible outcome: two sorted permutations of the same names are equal. */
  lemma {:induction false} SortedPermutationUnique(a: seq<string>, b: seq<string>)
    requires Sorted(a) && Sorted(b) && multiset(a) == multiset(b)
    ensures a == b
  {
    if a != [] {
      SameHead(a, b);
      TailMultiset(a);
      TailMultiset(b);
      SortedTail(a);
      SortedTail(b);
      SortedPermutationUnique(a[1..], b[1..]);
      assert a == [a[0]] + a[1..] && b == [b[0]] + b[1..];
    }
  }

  // ---------------------------------------------------------------------------
  // The buckets

  /** The buckets of one folder: one per configured extension, holding the sorted names
      that belong to it. */
  function BucketsOf(exts: seq<string>, names: seq<string>): map<string, seq<string>>
  {
    map e | e in exts :: SortNames(Matching(exts, names, e))
  }

  lemma MatchingSnoc(exts: seq<string>, names: seq<string>, i: nat, ext: string)
    requires i < |names|
    ensures Matching(exts, names[..i + 1], ext)
         == Matching(exts, names[..i], ext) + (if InBucket(exts, names[i], ext) then [names[i]] else [])
  {
    assert names[..i + 1][..i] == names[..i];
  }

  /** The bucket of `ext` holds exactly the names whose first matching extension is `ext`. */
  lemma {:induction false} MatchingMembers(exts: seq<string>, names: seq<string>, ext: string, name: string)
    ensures name in Matching(exts, names, ext) <==> name in names && InBucket(exts, name, ext)
  {
    if names != [] {
      var p := names[..|names| - 1];
      MatchingMembers(exts, p, ext, name);
      assert names == p + [names[|names| - 1]];
    }
  }

  /** A file lands in at most one bucket, and it is in a bucket exactly when its lower-cased
      name ends with one of the extensions. */
  lemma AtMostOneBucket(exts: seq<string>, names: seq<string>, name: string, e1: string, e2: string)
    requires e1 in exts && e2 in exts
    requires name in BucketsOf(exts, names)[e1] && name in BucketsOf(exts, names)[e2]
    ensures e1 == e2
  {
    assert name in multiset(SortNames(Matching(exts, names, e1)));
    assert name in multiset(SortNames(Matching(exts, names, e2)));
    MatchingMembers(exts, names, e1, name);
    MatchingMembers(exts, names, e2, name);
  }

  lemma InSomeBucket(exts: seq<string>, names: seq<string>, name: string)
    requires name in names
    ensures (exists e :: e in exts && name in BucketsOf(exts, names)[e])
        <==> (exists k :: 0 <= k < |exts| && EndsWith(Lower(name), exts[k]))
  {
    var m := FirstMatch(exts, Lower(name));
    if m.Some? {
      var e := exts[m.value];
      MatchingMembers(exts, names, e, name);
      assert name in multiset(SortNames(Matching(exts, names, e)));
      assert name in BucketsOf(exts, names)[e];
    } else {
      forall e | e in exts ensures name !in BucketsOf(exts, names)[e] {
        MatchingMembers(exts, names, e, name);
        assert name !in multiset(Matching(exts, names, e));
      }
    }
  }

  /** The inner loop of the bucketing: the name goes to the bucket of the first
      extension its lower-cased form ends with, and to no other. */
  method AppendToFirstMatch(exts: seq<string>, buckets: map<string, seq<string>>, name: string)
    returns (updated: map<string, seq<string>>)
    requires forall e :: e in exts ==> e in buckets
    ensures var m := FirstMatch(exts, Lower(name));
      updated == if m.Some? then buckets[exts[m.value] := buckets[exts[m.value]] + [name]] else buckets
  {
    updated := buckets;
    var fileLower := Lower(name);
    for j := 0 to |exts|
      invariant forall k :: 0 <= k < j ==> !EndsWith(fileLower, exts[k])
    {
      if EndsWith(fileLower, exts[j]) {
        assert FirstMatch(exts, fileLower) == Some(j);
        updated := buckets[exts[j] := buckets[exts[j]] + [name]];
        return;
      }
    }
  }

  /** The first loop of the bucketing: each name is appended to the bucket of the first
      extension its lower-cased form ends with, in listing order. */
  method CollectBuckets(exts: seq<string>, names: seq<string>) returns (buckets: map<string, seq<string>>)
    ensures buckets.Keys == set e | e in exts
    ensures forall e :: e in exts ==> buckets[e] == Matching(exts, names, e)
  {
    buckets := map e | e in exts :: [];
    for i := 0 to |names|
      invariant buckets.Keys == set e | e in exts
      invariant forall e :: e in exts ==> buckets[e] == Matching(exts, names[..i], e)
    {
      buckets := AppendToFirstMatch(exts, buckets, names[i]);
      forall e | e in exts ensures buckets[e] == Matching(exts, names[..i + 1], e) {
        MatchingSnoc(exts, names, i, e);
      }
    }
    assert names[..|names|] == names;
  }

  /** The second loop of the bucketing: every bucket is sorted in place. */
  method SortBuckets(exts: seq<string>, unsorted: map<string, seq<string>>) returns (buckets: map<string, seq<string>>)
    requires unsorted.Keys == set e | e in exts
    ensures buckets.Keys == unsorted.Keys
    ensures forall e :: e in exts ==> Sorted(buckets[e]) && multiset(buckets[e]) == multiset(unsorted[e])
  {
    buckets := unsorted;
    for j := 0 to |exts|
      invariant buckets.Keys == unsorted.Keys
      invariant forall e :: e in exts ==> multiset(buckets[e]) == multiset(unsorted[e])
      invariant forall k :: 0 <= k < j ==> Sorted(buckets[exts[k]])
    {
      buckets := buckets[exts[j] := SortNames(buckets[exts[j]])];
    }
    forall e | e in exts ensures Sorted(buckets[e]) {
      var k :| 0 <= k < |exts| && exts[k] == e;
    }
  }

  /** The bucketing of one folder's listing. */
  method BucketFiles(exts: seq<string>, names: seq<string>) returns (buckets: map<string, seq<string>>)
    ensures buckets.Keys == set e | e in exts
    ensures forall e :: e in exts ==> Sorted(buckets[e])
    ensures forall e :: e in exts ==> multiset(buckets[e]) == multiset(Matching(exts, names, e))
    ensures buckets == BucketsOf(exts, names)
  {
    var collected := CollectBuckets(exts, names);
    buckets := SortBuckets(exts, collected);
    forall e | e in exts ensures buckets[e] == BucketsOf(exts, names)[e] {
      SortedPermutationUnique(buckets[e], SortNames(Matching(exts, names, e)));
    }
  }
}
