/** Sortedness of string sequences, a reference sort, and the merge of two runs. */
module Order {
  import opened Lex

  /** Every earlier string is lexicographically no greater than every later one. */
  predicate Sorted(s: seq<Str>)
  {
    forall i, j {:trigger LexLe(s[i], s[j])} :: 0 <= i < j < |s| ==> LexLe(s[i], s[j])
  }

  /** Sorted by the suffixes from position `d`. */
  predicate SortedAt(s: seq<Str>, d: nat)
  {
    forall i, j {:trigger SuffixLe(s[i], s[j], d)} :: 0 <= i < j < |s| ==> SuffixLe(s[i], s[j], d)
  }

  /** `x` is no greater than any string of `s`. */
  predicate LowerBound(x: Str, s: seq<Str>)
  {
    forall y :: y in s ==> LexLe(x, y)
  }

  /** From position 0 the suffix order is the lexicographic order. */
  lemma SortedAtZero(s: seq<Str>)
    ensures SortedAt(s, 0) <==> Sorted(s)
  {
    if SortedAt(s, 0) {
      forall i, j | 0 <= i < j < |s| ensures LexLe(s[i], s[j]) {
        DropZero(s[i]);
        DropZero(s[j]);
        assert SuffixLe(s[i], s[j], 0);
      }
    }
    if Sorted(s) {
      forall i, j | 0 <= i < j < |s| ensures SuffixLe(s[i], s[j], 0) {
        DropZero(s[i]);
        DropZero(s[j]);
        assert LexLe(s[i], s[j]);
      }
    }
  }

  lemma SortedHeadIsLowerBound(s: seq<Str>)
    requires Sorted(s) && |s| > 0
    ensures LowerBound(s[0], s)
  {
    forall y | y in s ensures LexLe(s[0], y) {
      var j :| 0 <= j < |s| && s[j] == y;
      if j == 0 {
        LexLeReflexive(y);
      }
    }
  }

  lemma SortedCons(x: Str, s: seq<Str>)
    requires Sorted(s) && LowerBound(x, s)
    ensures Sorted([x] + s)
  {
    var r := [x] + s;
    forall i, j | 0 <= i < j < |r| ensures LexLe(r[i], r[j]) {
      if i == 0 {
        assert r[j] == s[j - 1];
      } else {
        assert r[i] == s[i - 1] && r[j] == s[j - 1];
      }
    }
  }

  lemma SortedTail(s: seq<Str>)
    requires Sorted(s) && |s| > 0
    ensures Sorted(s[1..])
  {
  }

  // ---------------------------------------------------------------------
  // The reference sort

  /** Inserts `x` before the first string it does not exceed. */
  function Insert(x: Str, s: seq<Str>): (r: seq<Str>)
    ensures multiset(r) == multiset(s) + multiset{x}
    ensures Sorted(s) ==> Sorted(r)
  {
    if s == [] then [x]
    else if LexLe(x, s[0]) then
      assert Sorted(s) ==> Sorted([x] + s) by {
        if Sorted(s) {
          SortedHeadIsLowerBound(s);
          forall y | y in s ensures LexLe(x, y) {
            LexLeTransitive(x, s[0], y);
          }
          SortedCons(x, s);
        }
      }
      [x] + s
    else
      var rest := Insert(x, s[1..]);
      assert s == [s[0]] + s[1..];
      assert Sorted(s) ==> Sorted([s[0]] + rest) by {
        if Sorted(s) {
          SortedTail(s);
          SortedHeadIsLowerBound(s);
          LexLeTotal(x, s[0]);
          forall y | y in rest ensures LexLe(s[0], y) {
            assert y in multiset(rest);
          }
          SortedCons(s[0], rest);
        }
      }
      [s[0]] + rest
  }

  /** Insertion sort: the reference definition of "the input, sorted". */
  function LexSort(s: seq<Str>): (r: seq<Str>)
    ensures Sorted(r)
    ensures multiset(r) == multiset(s)
  {
    if s == [] then []
    else
      assert s == [s[0]] + s[1..];
      Insert(s[0], LexSort(s[1..]))
  }

  /** A sorted permutation is unique: any two sorted rearrangements of the
      same strings are equal, so every sort here yields the same sequence. */
  lemma {:induction false} SortedUnique(s: seq<Str>, t: seq<Str>)
    requires Sorted(s) && Sorted(t)
    requires multiset(s) == multiset(t)
    ensures s == t
    decreases |s|
  {
    if s == [] {
      assert |multiset(t)| == 0;
    } else {
      assert |t| == |multiset(t)| == |multiset(s)| == |s|;
      SortedHeadIsLowerBound(s);
      SortedHeadIsLowerBound(t);
      assert t[0] in multiset(s) && s[0] in multiset(t);
      assert t[0] in s && s[0] in t;
      assert LexLe(s[0], t[0]) && LexLe(t[0], s[0]);
      LexLeAntisymmetric(s[0], t[0]);
      assert s == [s[0]] + s[1..] && t == [t[0]] + t[1..];
      assert multiset(s[1..]) == multiset(s) - multiset{s[0]};
      assert multiset(t[1..]) == multiset(t) - multiset{t[0]};
      SortedTail(s);
      SortedTail(t);
      SortedUnique(s[1..], t[1..]);
    }
  }

  /** A sorted rearrangement of `s` is `LexSort(s)`. */
  lemma IsLexSort(s: seq<Str>, t: seq<Str>)
    requires Sorted(t) && multiset(t) == multiset(s)
    ensures t == LexSort(s)
  {
    SortedUnique(t, LexSort(s));
  }

  /** A rearrangement sorted by the suffixes from position 0 is `LexSort(s)`:
      the character-wise sorts, started at depth 0, agree with the reference
      sort and with each other. */
  lemma DepthZeroIsLexSort(s: seq<Str>, t: seq<Str>)
    requires SortedAt(t, 0) && multiset(t) == multiset(s)
    ensures t == LexSort(s)
  {
    SortedAtZero(t);
    IsLexSort(s, t);
  }

  // ---------------------------------------------------------------------
  // Merging two runs

  /** Merges two runs, taking from the left run while its head does not
      exceed the right run's head (so the left run wins ties). */
  function MergeRuns(xs: seq<Str>, ys: seq<Str>): seq<Str>
    decreases |xs| + |ys|
  {
    if xs == [] then ys
    else if ys == [] then xs
    else if LexLe(xs[0], ys[0]) then [xs[0]] + MergeRuns(xs[1..], ys)
    else [ys[0]] + MergeRuns(xs, ys[1..])
  }

  /** The merge emits every string of both runs, each as often as it occurs. */
  lemma {:induction false} MergeRunsPermutes(xs: seq<Str>, ys: seq<Str>)
    ensures multiset(MergeRuns(xs, ys)) == multiset(xs) + multiset(ys)
    decreases |xs| + |ys|
  {
    if xs != [] && ys != [] {
      if LexLe(xs[0], ys[0]) {
        MergeRunsPermutes(xs[1..], ys);
        ConsLeft(xs[0], MergeRuns(xs[1..], ys), xs[1..], ys);
        assert xs == [xs[0]] + xs[1..];
      } else {
        MergeRunsPermutes(xs, ys[1..]);
        ConsRight(ys[0], MergeRuns(xs, ys[1..]), xs, ys[1..]);
        assert ys == [ys[0]] + ys[1..];
      }
    }
  }

  lemma ConsLeft(x: Str, rest: seq<Str>, xs: seq<Str>, ys: seq<Str>)
    requires multiset(rest) == multiset(xs) + multiset(ys)
    ensures multiset([x] + rest) == multiset([x] + xs) + multiset(ys)
  {
  }

  lemma ConsRight(y: Str, rest: seq<Str>, xs: seq<Str>, ys: seq<Str>)
    requires multiset(rest) == multiset(xs) + multiset(ys)
    ensures multiset([y] + rest) == multiset(xs) + multiset([y] + ys)
  {
  }

  /** Merging two sorted runs gives a sorted run. */
  lemma {:induction false} MergeRunsSorted(xs: seq<Str>, ys: seq<Str>)
    requires Sorted(xs) && Sorted(ys)
    ensures Sorted(MergeRuns(xs, ys))
    decreases |xs| + |ys|
  {
    if xs != [] && ys != [] {
      SortedHeadIsLowerBound(xs);
      SortedHeadIsLowerBound(ys);
      if LexLe(xs[0], ys[0]) {
        SortedTail(xs);
        MergeRunsSorted(xs[1..], ys);
        MergeRunsPermutes(xs[1..], ys);
        var rest := MergeRuns(xs[1..], ys);
        forall y | y in rest ensures LexLe(xs[0], y) {
          assert y in multiset(rest);
          if y in ys {
            LexLeTransitive(xs[0], ys[0], y);
          }
        }
        SortedCons(xs[0], rest);
      } else {
        LexLeTotal(xs[0], ys[0]);
        SortedTail(ys);
        MergeRunsSorted(xs, ys[1..]);
        MergeRunsPermutes(xs, ys[1..]);
        var rest := MergeRuns(xs, ys[1..]);
        forall y | y in rest ensures LexLe(ys[0], y) {
          assert y in multiset(rest);
          if y in xs {
            LexLeTransitive(ys[0], xs[0], y);
          }
        }
        SortedCons(ys[0], rest);
      }
    }
  }

  /** Two runs that are already in order are left as they are: the merge
      takes the whole left run first. */
  lemma {:induction false} MergeRunsInOrder(xs: seq<Str>, ys: seq<Str>)
    requires Sorted(xs + ys)
    ensures MergeRuns(xs, ys) == xs + ys
    decreases |xs|
  {
    if xs != [] && ys != [] {
      assert (xs + ys)[0] == xs[0] && (xs + ys)[|xs|] == ys[0];
      assert xs[1..] + ys == (xs + ys)[1..];
      MergeRunsInOrder(xs[1..], ys);
      assert xs + ys == [xs[0]] + (xs[1..] + ys);
    }
  }

  /** Top-down merge sort on values. An odd-length input gives its extra
      element to the left half, as the midpoint `left + (right - left) / 2`
      of an inclusive range does. */
  function MSort(s: seq<Str>): seq<Str>
    decreases |s|
  {
    if |s| <= 1 then s
    else
      var m := (|s| - 1) / 2 + 1;
      MergeRuns(MSort(s[..m]), MSort(s[m..]))
  }

  /**
   * `r` is the merge of the runs `xs` and `ys`. The merge methods state
   * their result through this name so that their proofs do not unfold
   * `MergeRuns`.
   */
  predicate Merged(r: seq<Str>, xs: seq<Str>, ys: seq<Str>)
  {
    r == MergeRuns(xs, ys)
  }

  /**
   * `r` is what merge sort makes of `s`. The merge sort methods state
   * their result through this name so that their proofs do not unfold
   * `MSort`.
   */
  predicate MergeSorted(r: seq<Str>, s: seq<Str>)
  {
    r == MSort(s)
  }

  /** One unfolding of merge sort, for callers whose context is too busy to unfold it. */
  lemma MSortSplit(s: seq<Str>, m: int)
    requires |s| > 1 && m == (|s| - 1) / 2 + 1
    ensures MSort(s) == MergeRuns(MSort(s[..m]), MSort(s[m..]))
  {
  }

  /** Merge sort returns its input sorted. */
  lemma {:induction false} MSortSorted(s: seq<Str>)
    ensures Sorted(MSort(s))
    decreases |s|
  {
    if |s| > 1 {
      var m := (|s| - 1) / 2 + 1;
      MSortSorted(s[..m]);
      MSortSorted(s[m..]);
      MSortSplit(s, m);
      MergeRunsSorted(MSort(s[..m]), MSort(s[m..]));
    }
  }

  /** Merge sort returns a rearrangement of its input. */
  lemma {:induction false} MSortPermutes(s: seq<Str>)
    ensures multiset(MSort(s)) == multiset(s)
    decreases |s|
  {
    if |s| > 1 {
      var m := (|s| - 1) / 2 + 1;
      var left, right := MSort(s[..m]), MSort(s[m..]);
      MSortPermutes(s[..m]);
      MSortPermutes(s[m..]);
      MSortSplit(s, m);
      MergeRunsPermutes(left, right);
      MultisetOfHalves(s, m);
    }
  }

  lemma MultisetOfHalves(s: seq<Str>, m: int)
    requires 0 <= m <= |s|
    ensures multiset(s) == multiset(s[..m]) + multiset(s[m..])
  {
    assert s == s[..m] + s[m..];
  }

  /** Merge sort agrees with the reference sort. */
  lemma MSortIsLexSort(s: seq<Str>)
    ensures MSort(s) == LexSort(s)
  {
    MSortSorted(s);
    MSortPermutes(s);
    IsLexSort(s, MSort(s));
  }

  // ---------------------------------------------------------------------
  // Sorting around a pivot (the quicksort step)

  lemma SortedAroundPivot(left: seq<Str>, p: Str, right: seq<Str>)
    requires Sorted(left) && Sorted(right)
    requires forall x :: x in left ==> LexLe(x, p)
    requires forall y :: y in right ==> !LexLe(y, p)
    ensures Sorted(left + [p] + right)
  {
    var r := left + [p] + right;
    var n := |left|;
    forall i, j | 0 <= i < j < |r| ensures LexLe(r[i], r[j]) {
      if j < n {
        assert r[i] == left[i] && r[j] == left[j];
      } else if i > n {
        assert r[i] == right[i - n - 1] && r[j] == right[j - n - 1];
      } else if i == n {
        assert r[j] == right[j - n - 1] && r[j] in right;
        LexLeTotal(r[j], p);
      } else if j == n {
        assert r[i] == left[i] && r[i] in left;
      } else {
        assert r[i] == left[i] && r[i] in left;
        assert r[j] == right[j - n - 1] && r[j] in right;
        LexLeTotal(r[j], p);
        LexLeTransitive(r[i], p, r[j]);
      }
    }
  }

  // ---------------------------------------------------------------------
  // Suffix order across bands of different bytes

  /** Two runs sorted from `d`, every string of the first no greater than
      every string of the second, make a run sorted from `d`. */
  lemma SortedAtConcat(xs: seq<Str>, ys: seq<Str>, d: nat)
    requires SortedAt(xs, d) && SortedAt(ys, d)
    requires forall x, y :: x in xs && y in ys ==> SuffixLe(x, y, d)
    ensures SortedAt(xs + ys, d)
  {
    var r := xs + ys;
    var n := |xs|;
    forall i, j | 0 <= i < j < |r| ensures SuffixLe(r[i], r[j], d) {
      if j < n {
        assert r[i] == xs[i] && r[j] == xs[j];
      } else if i >= n {
        assert r[i] == ys[i - n] && r[j] == ys[j - n];
      } else {
        assert r[i] == xs[i] && r[i] in xs;
        assert r[j] == ys[j - n] && r[j] in ys;
      }
    }
  }

  /** Strings that share one byte at `d` (or have all ended there) and are
      sorted from `d + 1` are sorted from `d`. */
  lemma SameCharBandSorted(s: seq<Str>, d: nat, c: int)
    requires forall x :: x in s ==> CharCode(x, d) == c
    requires c >= 0 ==> SortedAt(s, d + 1)
    ensures SortedAt(s, d)
  {
    forall i, j | 0 <= i < j < |s| ensures SuffixLe(s[i], s[j], d) {
      assert s[i] in s && s[j] in s;
      if c >= 0 {
        SameCharDescends(s[i], s[j], d);
      } else {
        EndedComesFirst(s[i], s[j], d);
      }
    }
  }

  /** A band of strings with byte `c` at `d`, followed by a band whose bytes
      at `d` all exceed `c`, is sorted from `d` when both bands are. */
  lemma LowerBandFirst(band: seq<Str>, rest: seq<Str>, d: nat, c: int)
    requires SortedAt(band, d) && SortedAt(rest, d)
    requires forall x :: x in band ==> CharCode(x, d) == c
    requires forall y :: y in rest ==> CharCode(y, d) > c
    ensures SortedAt(band + rest, d)
  {
    forall x, y | x in band && y in rest ensures SuffixLe(x, y, d) {
      CharCodeOrders(x, y, d);
    }
    SortedAtConcat(band, rest, d);
  }

  /** Changing only the positions in [lo, hi) leaves a slice outside it as it was. */
  lemma SliceUnchanged(t: seq<Str>, t': seq<Str>, lo: int, hi: int, a: int, b: int)
    requires |t'| == |t|
    requires 0 <= a <= b <= |t|
    requires b <= lo || hi <= a
    requires forall k :: 0 <= k < |t| && !(lo <= k < hi) ==> t'[k] == t[k]
    ensures t'[a..b] == t[a..b]
  {
  }

  /** The ternary split: strings whose byte at `d` is below the pivot byte,
      equal to it, above it, each band sorted (the equal band from `d + 1`
      when the pivot is a real byte) give a range sorted from `d`. */
  lemma ThreeBandsSorted(less: seq<Str>, eq: seq<Str>, greater: seq<Str>, d: nat, pivot: int)
    requires SortedAt(less, d) && SortedAt(greater, d)
    requires forall x :: x in less ==> CharCode(x, d) < pivot
    requires forall x :: x in eq ==> CharCode(x, d) == pivot
    requires forall x :: x in greater ==> CharCode(x, d) > pivot
    requires pivot >= 0 ==> SortedAt(eq, d + 1)
    ensures SortedAt(less + eq + greater, d)
  {
    SameCharBandSorted(eq, d, pivot);
    LowerBandFirst(eq, greater, d, pivot);
    var rest := eq + greater;
    forall x, y | x in less && y in rest ensures SuffixLe(x, y, d) {
      CharCodeOrders(x, y, d);
    }
    SortedAtConcat(less, rest, d);
    assert less + eq + greater == less + rest;
  }

  /** A bound that holds at every position holds of every rearrangement. */
  lemma BelowPivotKept(s: seq<Str>, t: seq<Str>, p: Str)
    requires multiset(t) == multiset(s)
    requires forall k :: 0 <= k < |s| ==> LexLe(s[k], p)
    ensures forall x :: x in t ==> LexLe(x, p)
  {
    forall x | x in t ensures LexLe(x, p) {
      assert x in multiset(s);
    }
  }

  lemma AbovePivotKept(s: seq<Str>, t: seq<Str>, p: Str)
    requires multiset(t) == multiset(s)
    requires forall k :: 0 <= k < |s| ==> !LexLe(s[k], p)
    ensures forall x :: x in t ==> !LexLe(x, p)
  {
    forall x | x in t ensures !LexLe(x, p) {
      assert x in multiset(s);
    }
  }
}
