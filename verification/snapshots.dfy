/**
 * Choosing the two snapshots to compare: of the data directory's file names,
 * those that look like `etf_holdings_<stamp>.csv`, sorted as Python sorts
 * strings; the last is the current snapshot and the one before it the
 * previous one. With fewer than two there is nothing to compare.
 */
module Snapshots {
  import opened Wrappers
  import opened Strings
  import opened Holdings
  import Sorting
  import Diff

  const SnapshotPrefix: string := "etf_holdings_"
  const SnapshotSuffix: string := ".csv"

  predicate IsSnapshotName(name: string)
  {
    StartsWith(name, SnapshotPrefix) && EndsWith(name, SnapshotSuffix)
  }

  /** The file written for a run whose timestamp is `stamp`. */
  function SnapshotName(stamp: string): (name: string)
    ensures IsSnapshotName(name)
  {
    var name := SnapshotPrefix + stamp + SnapshotSuffix;
    assert name[..|SnapshotPrefix|] == SnapshotPrefix;
    assert name[|name| - |SnapshotSuffix|..] == SnapshotSuffix;
    name
  }

  /** The snapshot names among `names`, in listing order, with their multiplicities. */
  function SnapshotFiles(names: seq<string>): (r: seq<string>)
    ensures forall n :: n in r ==> IsSnapshotName(n)
    ensures forall n :: IsSnapshotName(n) ==> multiset(r)[n] == multiset(names)[n]
  {
    if |names| == 0 then []
    else
      assert names == [names[0]] + names[1..];
      var rest := SnapshotFiles(names[1..]);
      if IsSnapshotName(names[0]) then [names[0]] + rest else rest
  }

  /** Python's `sorted` on file names. */
  function SortNames(names: seq<string>): (r: seq<string>)
    ensures multiset(r) == multiset(names)
    ensures Sorting.SortedBy(r, LexLe)
  {
    LexLeIsTotalPreorder();
    Sorting.InsertionSort(names, LexLe)
  }

  /** The pair of snapshots to compare. */
  datatype Selection = Selection(previous: string, current: string)

  /** The selection in `monitor_etfs`: `None` when fewer than two snapshots exist ("not enough history"). */
  function SelectSnapshots(names: seq<string>): (r: Option<Selection>)
    ensures r.None? <==> |SnapshotFiles(names)| < 2
  {
    var files := SortNames(SnapshotFiles(names));
    if |files| >= 2 then Some(Selection(files[|files| - 2], files[|files| - 1])) else None
  }

  /**
   * A list of names has exactly one sorted arrangement: two sorted
   * permutations of the same names are equal.
   */
  lemma {:induction false} SortedNamesAreUnique(a: seq<string>, b: seq<string>)
    requires multiset(a) == multiset(b)
    requires Sorting.SortedBy(a, LexLe) && Sorting.SortedBy(b, LexLe)
    ensures a == b
    decreases |a|
  {
    assert |a| == |multiset(a)| == |multiset(b)| == |b|;
    if |a| > 0 {
      assert a[0] in multiset(b) && b[0] in multiset(a);
      SortedHeadIsLeast(a, b[0]);
      SortedHeadIsLeast(b, a[0]);
      LexLeAntisymmetric(a[0], b[0]);
      EqualHeadsEqualTails(a, b);
      SortedNamesAreUnique(a[1..], b[1..]);
    }
  }

  lemma SortedHeadIsLeast(a: seq<string>, x: string)
    requires Sorting.SortedBy(a, LexLe) && x in a
    ensures LexLe(a[0], x)
  {
    LexLeTotal(a[0], a[0]);
  }

  lemma EqualHeadsEqualTails<T>(a: seq<T>, b: seq<T>)
    requires multiset(a) == multiset(b) && |a| > 0 && |b| > 0 && a[0] == b[0]
    ensures multiset(a[1..]) == multiset(b[1..])
  {
    assert a == [a[0]] + a[1..] && b == [b[0]] + b[1..];
    assert multiset(a) == multiset{a[0]} + multiset(a[1..]);
    assert multiset(b) == multiset{b[0]} + multiset(b[1..]);
    assert multiset(a[1..]) == multiset(a) - multiset{a[0]};
    assert multiset(b[1..]) == multiset(b) - multiset{b[0]};
  }

  /** `sorted` has only one possible result: any sorted permutation of the names is `SortNames`. */
  lemma SortNamesIsTheSort(names: seq<string>, r: seq<string>)
    requires multiset(r) == multiset(names) && Sorting.SortedBy(r, LexLe)
    ensures r == SortNames(names)
  {
    SortedNamesAreUnique(r, SortNames(names));
  }

  /**
   * The selection is the top two snapshot names: the current one is the
   * largest snapshot name listed, and every other listed snapshot name is no
   * larger than the previous one. The two coincide only when that name is
   * listed twice.
   */
  lemma SelectionIsTopTwo(names: seq<string>)
    requires SelectSnapshots(names).Some?
    ensures var s := SelectSnapshots(names).value;
      && IsSnapshotName(s.previous) && s.previous in names
      && IsSnapshotName(s.current) && s.current in names
      && LexLe(s.previous, s.current)
      && (forall n :: n in names && IsSnapshotName(n) ==> LexLe(n, s.current))
      && (forall n :: n in names && IsSnapshotName(n) && n != s.current ==> LexLe(n, s.previous))
      && (s.previous == s.current ==> multiset(names)[s.current] >= 2)
  {
    var filtered := SnapshotFiles(names);
    var files := SortNames(filtered);
    SortedFilesAreSnapshotNames(names);
    SortedTopTwo(files);
    var last := |files| - 1;
    assert SelectSnapshots(names).value == Selection(files[last - 1], files[last]);
    assert files[last - 1] in files && files[last] in files;
    LastTwoEqualCountTwice(files);
  }

  lemma LastTwoEqualCountTwice(s: seq<string>)
    requires |s| >= 2
    ensures s[|s| - 2] == s[|s| - 1] ==> multiset(s)[s[|s| - 1]] >= 2
  {
    var last := |s| - 1;
    assert s == s[..last - 1] + [s[last - 1], s[last]];
  }

  /** The sorted candidates are exactly the listed snapshot names, with their multiplicities. */
  lemma SortedFilesAreSnapshotNames(names: seq<string>)
    ensures forall n :: n in SortNames(SnapshotFiles(names)) <==> n in names && IsSnapshotName(n)
    ensures forall n :: IsSnapshotName(n) ==> multiset(SortNames(SnapshotFiles(names)))[n] == multiset(names)[n]
  { }

  /** In a sorted list the last element is a maximum and the one before it a maximum of the rest. */
  lemma SortedTopTwo(files: seq<string>)
    requires |files| >= 2
    requires Sorting.SortedBy(files, LexLe)
    ensures LexLe(files[|files| - 2], files[|files| - 1])
    ensures forall n :: n in files ==> LexLe(n, files[|files| - 1])
    ensures forall n :: n in files && n != files[|files| - 1] ==> LexLe(n, files[|files| - 2])
  {
    var last := |files| - 1;
    forall n | n in files ensures LexLe(n, files[last]) {
      var i :| 0 <= i < |files| && files[i] == n;
      if i < last {
        assert LexLe(files[i], files[last]);
      } else {
        LexLeTotal(n, n);
      }
    }
    forall n | n in files && n != files[last] ensures LexLe(n, files[last - 1]) {
      var i :| 0 <= i < |files| && files[i] == n;
      if i < last - 1 {
        assert LexLe(files[i], files[last - 1]);
      } else {
        LexLeTotal(n, n);
      }
    }
  }

  /**
   * With date stamps of one fixed width, file names sort as their stamps do,
   * so the selection picks the latest two dates.
   */
  lemma SnapshotNamesSortByStamp(a: string, b: string)
    requires |a| == |b|
    ensures LexLe(SnapshotName(a), SnapshotName(b)) <==> LexLe(a, b)
  {
    assert SnapshotName(a) == SnapshotPrefix + (a + SnapshotSuffix);
    assert SnapshotName(b) == SnapshotPrefix + (b + SnapshotSuffix);
    AffixesKeepOrder(SnapshotPrefix, a, b, SnapshotSuffix);
  }

  /** A common prefix and a common suffix do not change how two equal-length strings compare. */
  lemma AffixesKeepOrder(p: string, a: string, b: string, suffix: string)
    requires |a| == |b|
    ensures LexLe(p + (a + suffix), p + (b + suffix)) <==> LexLe(a, b)
  {
    LexLeCommonPrefix(p, a + suffix, b + suffix);
    EqualLengthSuffix(a, b, suffix);
  }

  /** Appending one suffix to two strings of equal length does not change their order. */
  lemma {:induction false} EqualLengthSuffix(a: string, b: string, suffix: string)
    requires |a| == |b|
    ensures LexLe(a + suffix, b + suffix) <==> LexLe(a, b)
    decreases |a|
  {
    if |a| == 0 {
      assert a + suffix == suffix == b + suffix;
      LexLeTotal(suffix, suffix);
    } else {
      var xs, ys := a + suffix, b + suffix;
      assert xs[0] == a[0] && ys[0] == b[0];
      assert xs[1..] == a[1..] + suffix && ys[1..] == b[1..] + suffix;
      EqualLengthSuffix(a[1..], b[1..], suffix);
    }
  }

  /**
   * `monitor_etfs`: compare the current snapshot with the previous one when
   * two exist, reading each with `read`; `None` signals too little history.
   */
  function CompareLatest(names: seq<string>, read: string -> Table): (r: Option<Diff.Changes>)
    requires SelectSnapshots(names).Some? ==>
      Diff.Comparable(read(SelectSnapshots(names).value.current), read(SelectSnapshots(names).value.previous))
    ensures r.None? <==> |SnapshotFiles(names)| < 2
    ensures r.Some? ==>
      var s := SelectSnapshots(names).value;
      r.value == Diff.CompareHoldings(read(s.current), read(s.previous))
  {
    match SelectSnapshots(names)
    case None => None
    case Some(s) =>
      Some(Diff.CompareHoldings(read(s.current), read(s.previous)))
  }

}
