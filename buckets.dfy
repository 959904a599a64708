/** The counting-sort pass of the MSD radix sorts, stated on sequences: which
    strings fall in which bucket, where each bucket starts, and why sorting
    every bucket one position deeper sorts the whole range. */
module Buckets {
  import opened Lex
  import opened Order

  /** The strings of `s` whose byte at `d` (or -1 past the end) lies in
      [lo, hi), in their original order. */
  function Select(s: seq<Str>, d: nat, lo: int, hi: int): (r: seq<Str>)
    ensures |r| <= |s|
    ensures forall x :: x in r ==> x in s && lo <= CharCode(x, d) < hi
    decreases |s|
  {
    if s == [] then []
    else
      var init := s[..|s| - 1];
      var last := s[|s| - 1];
      assert forall x :: x in init ==> x in s;
      Select(init, d, lo, hi) + (if lo <= CharCode(last, d) < hi then [last] else [])
  }

  /** Bucket `c`: the strings with byte `c` at `d` (`c == -1`: ended by `d`). */
  function Bucket(s: seq<Str>, d: nat, c: int): seq<Str>
  {
    Select(s, d, c, c + 1)
  }

  /** Where bucket `c` starts once the range is grouped: the number of
      strings whose byte at `d` is below `c`. */
  function Start(s: seq<Str>, d: nat, c: int): nat
  {
    |Select(s, d, -1, c)|
  }

  // ---------------------------------------------------------------------
  // Facts about Select

  lemma SelectAppend(s: seq<Str>, x: Str, d: nat, lo: int, hi: int)
    ensures Select(s + [x], d, lo, hi)
            == Select(s, d, lo, hi) + (if lo <= CharCode(x, d) < hi then [x] else [])
  {
    assert (s + [x])[..|s|] == s;
  }

  lemma SelectEmptyRange(s: seq<Str>, d: nat, lo: int, hi: int)
    requires hi <= lo
    ensures Select(s, d, lo, hi) == []
  {
  }

  /** Splitting the byte range at `mid` splits the selection. */
  lemma {:induction false} SelectSplit(s: seq<Str>, d: nat, lo: int, mid: int, hi: int)
    requires lo <= mid <= hi
    ensures |Select(s, d, lo, hi)| == |Select(s, d, lo, mid)| + |Select(s, d, mid, hi)|
    ensures multiset(Select(s, d, lo, hi))
            == multiset(Select(s, d, lo, mid)) + multiset(Select(s, d, mid, hi))
    decreases |s|
  {
    if s != [] {
      var init, last := s[..|s| - 1], s[|s| - 1];
      SelectSplit(init, d, lo, mid, hi);
      SplitStep(Select(init, d, lo, hi), Select(init, d, lo, mid), Select(init, d, mid, hi),
                Select(s, d, lo, hi), Select(s, d, lo, mid), Select(s, d, mid, hi), last, CharCode(last, d), lo, mid, hi);
    }
  }

  /** One more string, with byte code `c`, joins the whole selection and
      exactly one of its two halves (or none of the three). */
  lemma SplitStep(all: seq<Str>, low: seq<Str>, high: seq<Str>, all': seq<Str>, low': seq<Str>, high': seq<Str>,
                  x: Str, c: int, lo: int, mid: int, hi: int)
    requires lo <= mid <= hi
    requires |all| == |low| + |high| && multiset(all) == multiset(low) + multiset(high)
    requires all' == all + (if lo <= c < hi then [x] else [])
    requires low' == low + (if lo <= c < mid then [x] else [])
    requires high' == high + (if mid <= c < hi then [x] else [])
    ensures |all'| == |low'| + |high'| && multiset(all') == multiset(low') + multiset(high')
  {
  }

  /** Every byte code lies in [-1, 256), so that range selects everything. */
  lemma {:induction false} SelectAll(s: seq<Str>, d: nat)
    ensures Select(s, d, -1, 256) == s
    decreases |s|
  {
    if s != [] {
      var init, last := s[..|s| - 1], s[|s| - 1];
      SelectAll(init, d);
      assert s == init + [last];
      SelectAppend(init, last, d, -1, 256);
    }
  }

  /** A prefix of the input selects no more than the whole input. */
  lemma {:induction false} SelectPrefix(s: seq<Str>, m: nat, d: nat, lo: int, hi: int)
    requires m <= |s|
    ensures |Select(s[..m], d, lo, hi)| <= |Select(s, d, lo, hi)|
    decreases |s|
  {
    if m < |s| {
      var init := s[..|s| - 1];
      assert init[..m] == s[..m];
      SelectPrefix(init, m, d, lo, hi);
    } else {
      assert s[..m] == s;
    }
  }

  lemma StartFacts(s: seq<Str>, d: nat, c: int)
    requires -1 <= c <= 255
    ensures Start(s, d, -1) == 0
    ensures Start(s, d, 256) == |s|
    ensures Start(s, d, c + 1) == Start(s, d, c) + |Bucket(s, d, c)|
  {
    SelectEmptyRange(s, d, -1, -1);
    SelectAll(s, d);
    SelectSplit(s, d, -1, c, c + 1);
  }

  lemma StartMonotone(s: seq<Str>, d: nat, c1: int, c2: int)
    requires -1 <= c1 <= c2
    ensures Start(s, d, c1) <= Start(s, d, c2)
  {
    SelectSplit(s, d, -1, c1, c2);
  }

  // ---------------------------------------------------------------------
  // The range after the distribution pass, and after each bucket is sorted

  /** Bucket `c` of `s` sits, in its original order, where it starts in `t`. */
  predicate BucketInPlace(t: seq<Str>, s: seq<Str>, d: nat, c: int)
  {
    Start(s, d, c) <= Start(s, d, c + 1) <= |t|
    && t[Start(s, d, c)..Start(s, d, c + 1)] == Bucket(s, d, c)
  }

  /** `t` is `s` stably grouped by the byte at `d`: bucket -1 first, then
      buckets 0 to 255, each in its original order. */
  predicate Grouped(t: seq<Str>, s: seq<Str>, d: nat)
  {
    && |t| == |s|
    && forall c :: -1 <= c < 256 ==> BucketInPlace(t, s, d, c)
  }

  /** Bucket `c` of `t` holds a rearrangement of bucket `c` of `s`, sorted
      from `d + 1`. */
  predicate BucketSorted(t: seq<Str>, s: seq<Str>, d: nat, c: int)
  {
    Start(s, d, c) <= Start(s, d, c + 1) <= |t|
    && multiset(t[Start(s, d, c)..Start(s, d, c + 1)]) == multiset(Bucket(s, d, c))
    && SortedAt(t[Start(s, d, c)..Start(s, d, c + 1)], d + 1)
  }

  /** Buckets 0 to r-1 of the grouped range have been sorted from `d + 1`;
      the others are still as the distribution pass left them. */
  predicate BucketsDone(t: seq<Str>, s: seq<Str>, d: nat, r: int)
  {
    && |t| == |s|
    && (forall c :: -1 <= c < 256 && 0 <= c < r ==> BucketSorted(t, s, d, c))
    && (forall c :: -1 <= c < 256 && !(0 <= c < r) ==> BucketInPlace(t, s, d, c))
  }

  lemma GroupedIsDoneAtZero(t: seq<Str>, s: seq<Str>, d: nat)
    requires Grouped(t, s, d)
    ensures BucketsDone(t, s, d, 0)
  {
  }

  /** Sorting bucket `r` in place, and touching nothing else, sorts one more bucket. */
  lemma BucketsDoneStep(t: seq<Str>, t': seq<Str>, s: seq<Str>, d: nat, r: int)
    requires 0 <= r < 256
    requires BucketsDone(t, s, d, r)
    requires |t'| == |t|
    requires Start(s, d, r) <= Start(s, d, r + 1) <= |t|
    requires forall k :: 0 <= k < |t| && !(Start(s, d, r) <= k < Start(s, d, r + 1)) ==> t'[k] == t[k]
    requires multiset(t'[Start(s, d, r)..Start(s, d, r + 1)]) == multiset(t[Start(s, d, r)..Start(s, d, r + 1)])
    requires SortedAt(t'[Start(s, d, r)..Start(s, d, r + 1)], d + 1)
    ensures BucketsDone(t', s, d, r + 1)
  {
    assert BucketInPlace(t, s, d, r);
    forall c | -1 <= c < 256 && 0 <= c < r + 1 ensures BucketSorted(t', s, d, c) {
      if c < r {
        assert BucketSorted(t, s, d, c);
        StartMonotone(s, d, c + 1, r);
        SliceUnchanged(t, t', Start(s, d, r), Start(s, d, r + 1), Start(s, d, c), Start(s, d, c + 1));
      }
    }
    forall c | -1 <= c < 256 && !(0 <= c < r + 1) ensures BucketInPlace(t', s, d, c) {
      assert BucketInPlace(t, s, d, c);
      if c < r {
        StartMonotone(s, d, c + 1, r);
      } else {
        StartMonotone(s, d, r + 1, c);
      }
      SliceUnchanged(t, t', Start(s, d, r), Start(s, d, r + 1), Start(s, d, c), Start(s, d, c + 1));
    }
  }

  /** Bucket `c` of a finished range holds only strings with byte `c` at `d`,
      and is sorted from `d`. */
  lemma FinishedBucket(t: seq<Str>, s: seq<Str>, d: nat, c: int)
    requires BucketsDone(t, s, d, 256)
    requires -1 <= c < 256
    ensures Start(s, d, c) <= Start(s, d, c + 1) <= |t|
    ensures multiset(t[Start(s, d, c)..Start(s, d, c + 1)]) == multiset(Bucket(s, d, c))
    ensures forall x :: x in t[Start(s, d, c)..Start(s, d, c + 1)] ==> CharCode(x, d) == c
    ensures SortedAt(t[Start(s, d, c)..Start(s, d, c + 1)], d)
  {
    if c >= 0 {
      assert BucketSorted(t, s, d, c);
    } else {
      assert BucketInPlace(t, s, d, c);
    }
    var band := t[Start(s, d, c)..Start(s, d, c + 1)];
    forall x | x in band ensures CharCode(x, d) == c {
      assert x in multiset(band);
    }
    SameCharBandSorted(band, d, c);
  }

  lemma {:induction false} BucketsDoneSuffix(t: seq<Str>, s: seq<Str>, d: nat, c: int)
    requires BucketsDone(t, s, d, 256)
    requires -1 <= c <= 256
    ensures Start(s, d, c) <= |t|
    ensures SortedAt(t[Start(s, d, c)..], d)
    ensures multiset(t[Start(s, d, c)..]) == multiset(Select(s, d, c, 256))
    ensures forall x :: x in t[Start(s, d, c)..] ==> CharCode(x, d) >= c
    decreases 256 - c
  {
    if c == 256 {
      StartFacts(s, d, 255);
      SelectEmptyRange(s, d, 256, 256);
    } else {
      BucketsDoneSuffix(t, s, d, c + 1);
      FinishedBucket(t, s, d, c);
      SuffixStep(t, s, d, c);
    }
  }

  lemma SuffixStep(t: seq<Str>, s: seq<Str>, d: nat, c: int)
    requires -1 <= c < 256
    requires Start(s, d, c) <= Start(s, d, c + 1) <= |t|
    requires multiset(t[Start(s, d, c)..Start(s, d, c + 1)]) == multiset(Bucket(s, d, c))
    requires forall x :: x in t[Start(s, d, c)..Start(s, d, c + 1)] ==> CharCode(x, d) == c
    requires SortedAt(t[Start(s, d, c)..Start(s, d, c + 1)], d)
    requires SortedAt(t[Start(s, d, c + 1)..], d)
    requires multiset(t[Start(s, d, c + 1)..]) == multiset(Select(s, d, c + 1, 256))
    requires forall x :: x in t[Start(s, d, c + 1)..] ==> CharCode(x, d) >= c + 1
    ensures SortedAt(t[Start(s, d, c)..], d)
    ensures multiset(t[Start(s, d, c)..]) == multiset(Select(s, d, c, 256))
    ensures forall x :: x in t[Start(s, d, c)..] ==> CharCode(x, d) >= c
  {
    var lo, mid := Start(s, d, c), Start(s, d, c + 1);
    var band, rest := t[lo..mid], t[mid..];
    assert t[lo..] == band + rest;
    LowerBandFirst(band, rest, d, c);
    SelectSplit(s, d, c, c + 1, 256);
  }

  /** Once every bucket is sorted from `d + 1`, the range is sorted from `d`
      and is a permutation of the input. */
  lemma BucketsDoneSorted(t: seq<Str>, s: seq<Str>, d: nat)
    requires BucketsDone(t, s, d, 256)
    ensures SortedAt(t, d)
    ensures multiset(t) == multiset(s)
  {
    BucketsDoneSuffix(t, s, d, -1);
    StartFacts(s, d, -1);
    SelectAll(s, d);
    assert t[0..] == t;
  }

  /** The grouped range is a permutation of the input. */
  lemma GroupedIsPermutation(t: seq<Str>, s: seq<Str>, d: nat)
    requires Grouped(t, s, d)
    ensures multiset(t) == multiset(s)
  {
    GroupedSuffixPerm(t, s, d, -1);
    StartFacts(s, d, -1);
    SelectAll(s, d);
    assert t[0..] == t;
  }

  lemma {:induction false} GroupedSuffixPerm(t: seq<Str>, s: seq<Str>, d: nat, c: int)
    requires Grouped(t, s, d)
    requires -1 <= c <= 256
    ensures Start(s, d, c) <= |t|
    ensures multiset(t[Start(s, d, c)..]) == multiset(Select(s, d, c, 256))
    decreases 256 - c
  {
    if c == 256 {
      StartFacts(s, d, 255);
      SelectEmptyRange(s, d, 256, 256);
    } else {
      GroupedSuffixPerm(t, s, d, c + 1);
      assert BucketInPlace(t, s, d, c);
      var lo, mid := Start(s, d, c), Start(s, d, c + 1);
      assert t[lo..] == t[lo..mid] + t[mid..];
      SelectSplit(s, d, c, c + 1, 256);
    }
  }

  // ---------------------------------------------------------------------
  // The counting and distribution passes

  /** `cnt[c + 2]` is the size of bucket `c` of `s`, for every byte code
      `c`, and `cnt[0]` is zero: the counts before the prefix sums. */
  predicate Counted(cnt: seq<int>, s: seq<Str>, d: nat)
  {
    |cnt| == 258 && cnt[0] == 0
    && forall k :: 1 <= k < 258 ==> cnt[k] == |Bucket(s, d, k - 2)|
  }

  /** With nothing counted every count is zero. */
  lemma CountInit(cnt: seq<int>, d: nat)
    requires |cnt| == 258 && forall k :: 0 <= k < 258 ==> cnt[k] == 0
    ensures Counted(cnt, [], d)
  {
  }

  /** Counting one more string bumps exactly its bucket's count. */
  lemma CountStep(cnt: seq<int>, cnt': seq<int>, s: seq<Str>, m: nat, d: nat)
    requires m < |s| && Counted(cnt, s[..m], d)
    requires cnt' == cnt[CharCode(s[m], d) + 2 := cnt[CharCode(s[m], d) + 2] + 1]
    ensures Counted(cnt', s[..m + 1], d)
  {
    forall k | 1 <= k < 258 ensures cnt'[k] == |Bucket(s[..m + 1], d, k - 2)| {
      BucketGrows(s, m, d, k - 2);
    }
  }

  /** After the prefix sums: `cnt[c + 1]` is where bucket `c` starts. */
  predicate Starts(cnt: seq<int>, s: seq<Str>, d: nat)
  {
    |cnt| == 258 && forall k :: 0 <= k < 258 ==> cnt[k] == Start(s, d, k - 1)
  }

  /** After the distribution pass: `cnt[c + 1]` is where bucket `c` ends. */
  predicate Ends(cnt: seq<int>, s: seq<Str>, d: nat)
  {
    |cnt| == 258 && forall k :: 0 <= k <= 256 ==> cnt[k] == Start(s, d, k)
  }

  /** Bucket `c` while the distribution pass runs: after the first `m`
      strings of `s` are placed, it holds, from its start, those of them with
      byte `c` at `d`, and `next[c + 1]` is where its next string goes. */
  predicate BucketFilling(aux: seq<Str>, next: seq<int>, s: seq<Str>, d: nat, m: nat, c: int)
    requires |next| == 258 && -1 <= c < 256 && m <= |s|
  {
    && next[c + 1] == Start(s, d, c) + |Bucket(s[..m], d, c)|
    && next[c + 1] <= Start(s, d, c + 1) <= |aux|
    && aux[Start(s, d, c)..next[c + 1]] == Bucket(s[..m], d, c)
  }

  predicate Distributed(aux: seq<Str>, next: seq<int>, s: seq<Str>, d: nat, m: nat)
  {
    && |next| == 258 && |aux| == |s| && m <= |s|
    && forall c :: -1 <= c < 256 ==> BucketFilling(aux, next, s, d, m, c)
  }

  /** With every bucket's next slot at its start, nothing is placed yet. */
  lemma DistributeInit(aux: seq<Str>, next: seq<int>, s: seq<Str>, d: nat)
    requires |aux| == |s| && Starts(next, s, d)
    ensures Distributed(aux, next, s, d, 0)
  {
    assert s[..0] == [];
    forall c | -1 <= c < 256 ensures BucketFilling(aux, next, s, d, 0, c) {
      assert next[c + 1] == Start(s, d, c + 1 - 1);
      StartFacts(s, d, c);
      StartMonotone(s, d, c + 1, 256);
    }
  }

  /** Placing string `m` at its bucket's next slot, and advancing that slot,
      keeps every bucket filled in order. */
  lemma DistributeStep(aux: seq<Str>, next: seq<int>, aux': seq<Str>, next': seq<int>, s: seq<Str>, d: nat, m: nat)
    requires Distributed(aux, next, s, d, m)
    requires m < |s|
    requires 0 <= next[CharCode(s[m], d) + 1] < |aux|
    requires aux' == aux[next[CharCode(s[m], d) + 1] := s[m]]
    requires next' == next[CharCode(s[m], d) + 1 := next[CharCode(s[m], d) + 1] + 1]
    ensures Distributed(aux', next', s, d, m + 1)
  {
    SlotInBucket(aux, next, s, d, m);
    var c := CharCode(s[m], d);
    var m' := m + 1;
    forall c' | -1 <= c' < 256 ensures BucketFilling(aux', next', s, d, m', c') {
      FillingStep(aux, next, aux', next', s, d, m, c, c');
    }
  }

  /** The slot string `m` goes to lies inside its bucket. */
  lemma SlotInBucket(aux: seq<Str>, next: seq<int>, s: seq<Str>, d: nat, m: nat)
    requires Distributed(aux, next, s, d, m)
    requires m < |s|
    ensures var c := CharCode(s[m], d);
            Start(s, d, c) <= next[c + 1] < Start(s, d, c + 1) <= |aux|
  {
    var c := CharCode(s[m], d);
    assert BucketFilling(aux, next, s, d, m, c);
    BucketGrows(s, m, d, c);
    SelectPrefix(s, m + 1, d, c, c + 1);
    StartFacts(s, d, c);
  }

  /** One bucket across one placement of a string with byte `c`. */
  lemma FillingStep(aux: seq<Str>, next: seq<int>, aux': seq<Str>, next': seq<int>, s: seq<Str>, d: nat, m: nat, c: int, c': int)
    requires |next| == 258 && |aux| == |s| && m < |s| && -1 <= c' < 256 && c == CharCode(s[m], d)
    requires BucketFilling(aux, next, s, d, m, c')
    requires Start(s, d, c) <= next[c + 1] < Start(s, d, c + 1) <= |aux|
    requires aux' == aux[next[c + 1] := s[m]] && next' == next[c + 1 := next[c + 1] + 1]
    ensures BucketFilling(aux', next', s, d, m + 1, c')
  {
    if c' == c {
      BucketTakes(aux, next, aux', next', s, d, m, c);
    } else {
      BucketGrows(s, m, d, c');
      if c' < c {
        StartMonotone(s, d, c' + 1, c);
      } else {
        StartMonotone(s, d, c + 1, c');
      }
      OtherBucketKept(aux, next, aux', next', s, d, m, c, c');
    }
  }

  /** Placing a string with byte `c` at bucket `c`'s next slot extends that
      bucket's filled part by it. */
  lemma BucketTakes(aux: seq<Str>, next: seq<int>, aux': seq<Str>, next': seq<int>, s: seq<Str>, d: nat, m: nat, c: int)
    requires |next| == 258 && |aux| == |s| && m < |s| && -1 <= c < 256 && c == CharCode(s[m], d)
    requires BucketFilling(aux, next, s, d, m, c)
    requires next[c + 1] < Start(s, d, c + 1)
    requires aux' == aux[next[c + 1] := s[m]] && next' == next[c + 1 := next[c + 1] + 1]
    ensures BucketFilling(aux', next', s, d, m + 1, c)
  {
    BucketGrows(s, m, d, c);
    assert aux'[Start(s, d, c)..next[c + 1] + 1] == aux[Start(s, d, c)..next[c + 1]] + [s[m]];
  }

  /** The bucket of `c` in `s[..m + 1]` is that in `s[..m]`, plus `s[m]` when its byte is `c`. */
  lemma BucketGrows(s: seq<Str>, m: nat, d: nat, c: int)
    requires m < |s|
    ensures Bucket(s[..m + 1], d, c) == Bucket(s[..m], d, c) + (if CharCode(s[m], d) == c then [s[m]] else [])
  {
    assert s[..m + 1] == s[..m] + [s[m]];
    SelectAppend(s[..m], s[m], d, c, c + 1);
  }

  /** A placement outside a bucket's filled part leaves that part alone. */
  lemma OtherBucketKept(aux: seq<Str>, next: seq<int>, aux': seq<Str>, next': seq<int>, s: seq<Str>, d: nat, m: nat, c: int, c': int)
    requires |next| == 258 && m < |s| && -1 <= c < 256 && -1 <= c' < 256 && c != c'
    requires BucketFilling(aux, next, s, d, m, c')
    requires 0 <= next[c + 1] < |aux|
    requires next[c + 1] < Start(s, d, c') || next[c' + 1] <= next[c + 1]
    requires aux' == aux[next[c + 1] := s[m]] && next' == next[c + 1 := next[c + 1] + 1]
    requires Bucket(s[..m + 1], d, c') == Bucket(s[..m], d, c')
    ensures BucketFilling(aux', next', s, d, m + 1, c')
  {
    assert aux'[Start(s, d, c')..next[c' + 1]] == aux[Start(s, d, c')..next[c' + 1]];
  }

  /** Once all of `s` is placed, the buffer is `s` grouped by the byte at `d`
      and each slot counter has reached the start of the next bucket. */
  lemma DistributeDone(aux: seq<Str>, next: seq<int>, s: seq<Str>, d: nat)
    requires Distributed(aux, next, s, d, |s|)
    ensures Grouped(aux, s, d)
    ensures Ends(next, s, d)
  {
    assert s[..|s|] == s;
    forall c | -1 <= c < 256 ensures BucketInPlace(aux, s, d, c) && next[c + 1] == Start(s, d, c + 1) {
      assert BucketFilling(aux, next, s, d, |s|, c);
      StartFacts(s, d, c);
    }
    forall m | 0 <= m <= 256 ensures next[m] == Start(s, d, m) {
      if m == 0 {
        StartFacts(s, d, -1);
        assert BucketFilling(aux, next, s, d, |s|, -1);
        SelectEmptyRange(s, d, -1, -1);
      } else {
        assert BucketInPlace(aux, s, d, m - 1) && next[m - 1 + 1] == Start(s, d, m - 1 + 1);
      }
    }
  }
}
