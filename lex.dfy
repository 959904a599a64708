/** Strings as byte sequences and the lexicographic order the sorts share. */
module Lex {

  /** One character of a string, read as an unsigned byte. */
  type Byte = b: int | 0 <= b < 256

  type Str = seq<Byte>

  function Min(x: int, y: int): int
  {
    if x < y then x else y
  }

  /** Length of the longest common prefix of `a` and `b`: the index of the
      first mismatch, or the shorter length when there is none. */
  function CommonPrefixLen(a: Str, b: Str): (k: nat)
    ensures k <= |a| && k <= |b|
    ensures a[..k] == b[..k]
    ensures k < |a| && k < |b| ==> a[k] != b[k]
    decreases |a|
  {
    if |a| == 0 || |b| == 0 || a[0] != b[0] then 0
    else
      var k' := CommonPrefixLen(a[1..], b[1..]);
      assert a[..k' + 1] == [a[0]] + a[1..][..k'];
      assert b[..k' + 1] == [b[0]] + b[1..][..k'];
      k' + 1
  }

  /** Three-way comparison: the sign of the first differing byte, or of the
      length difference when one string is a prefix of the other. */
  function Compare(a: Str, b: Str): (r: int)
    ensures r == -1 || r == 0 || r == 1
    ensures r == 0 <==> a == b
  {
    var k := CommonPrefixLen(a, b);
    assert a == b ==> CommonPrefixLen(a, b) == |a|;
    assert k == |a| == |b| ==> a == a[..k] && b == b[..k];
    if k < |a| && k < |b| then (if a[k] < b[k] then -1 else 1)
    else if |a| < |b| then -1
    else if |a| > |b| then 1
    else 0
  }

  /** The number of byte comparisons the comparison loop performs on (a, b):
      one per position up to and including the first mismatch. */
  function CompareCost(a: Str, b: Str): (n: nat)
    ensures n <= Min(|a|, |b|)
    ensures n == 0 <==> |a| == 0 || |b| == 0
  {
    var k := CommonPrefixLen(a, b);
    if k < |a| && k < |b| then k + 1 else k
  }

  /** Lexicographic order in which a proper prefix comes first. */
  predicate LexLe(a: Str, b: Str)
    decreases |a|
  {
    |a| == 0 || (|b| > 0 && (a[0] < b[0] || (a[0] == b[0] && LexLe(a[1..], b[1..]))))
  }

  /** `a` stops while agreeing with the longer `b`. */
  predicate ProperPrefix(a: Str, b: Str)
  {
    |a| < |b| && a == b[..|a|]
  }

  /** `a` and `b` agree before position `k` and `a` has the smaller byte there. */
  predicate PrecedesAt(a: Str, b: Str, k: nat)
  {
    k < |a| && k < |b| && a[..k] == b[..k] && a[k] < b[k]
  }

  /** The byte of `s` at position `d`, or -1 once `d` is past the end. */
  function CharCode(s: Str, d: nat): (c: int)
    ensures -1 <= c < 256
    ensures c == -1 <==> d >= |s|
    ensures c != -1 ==> c == s[d]
  {
    if d < |s| then s[d] else -1
  }

  /** The suffix of `s` from position `d` (empty once `d` is past the end). */
  function Drop(s: Str, d: nat): (r: Str)
    ensures |r| == if d < |s| then |s| - d else 0
    ensures forall i :: 0 <= i < |r| ==> r[i] == s[d + i]
  {
    if d < |s| then s[d..] else []
  }

  /** Order of two strings by their suffixes from position `d`. */
  predicate SuffixLe(a: Str, b: Str, d: nat)
  {
    LexLe(Drop(a, d), Drop(b, d))
  }

  // ---------------------------------------------------------------------
  // The common prefix and the comparison

  /** Any position with the three properties of the common-prefix length is it. */
  lemma CommonPrefixLenUnique(a: Str, b: Str, k: nat)
    requires k <= |a| && k <= |b|
    requires a[..k] == b[..k]
    requires k < |a| && k < |b| ==> a[k] != b[k]
    ensures CommonPrefixLen(a, b) == k
  {
  }

  lemma CommonPrefixLenSymmetric(a: Str, b: Str)
    ensures CommonPrefixLen(a, b) == CommonPrefixLen(b, a)
  {
    CommonPrefixLenUnique(b, a, CommonPrefixLen(a, b));
  }

  /** Swapping the arguments negates the comparison. */
  lemma CompareAntisymmetric(a: Str, b: Str)
    ensures Compare(b, a) == -Compare(a, b)
  {
    CommonPrefixLenSymmetric(a, b);
  }

  /** The comparison answers -1 exactly when `a` is a proper prefix of `b` or
      has the smaller byte at the first position where they differ. */
  lemma CompareLessMeaning(a: Str, b: Str)
    ensures Compare(a, b) == -1 <==> ProperPrefix(a, b) || exists k :: PrecedesAt(a, b, k)
  {
    var k0 := CommonPrefixLen(a, b);
    if Compare(a, b) == -1 {
      if k0 < |a| && k0 < |b| {
        assert PrecedesAt(a, b, k0);
      } else {
        assert a == a[..k0];
      }
    }
    if ProperPrefix(a, b) {
      CommonPrefixLenUnique(a, b, |a|);
    }
    if exists k :: PrecedesAt(a, b, k) {
      var k :| PrecedesAt(a, b, k);
      CommonPrefixLenUnique(a, b, k);
    }
  }

  /** Dropping an equal first byte leaves the comparison unchanged. */
  lemma CompareTail(a: Str, b: Str)
    requires |a| > 0 && |b| > 0 && a[0] == b[0]
    ensures Compare(a, b) == Compare(a[1..], b[1..])
    ensures CompareCost(a, b) == CompareCost(a[1..], b[1..]) + 1
  {
  }

  /** A non-positive comparison is exactly the lexicographic order. */
  lemma {:induction false} CompareIsLexLe(a: Str, b: Str)
    ensures Compare(a, b) <= 0 <==> LexLe(a, b)
    decreases |a|
  {
    if |a| > 0 && |b| > 0 && a[0] == b[0] {
      CompareTail(a, b);
      CompareIsLexLe(a[1..], b[1..]);
    }
  }

  // ---------------------------------------------------------------------
  // LexLe is a total order

  lemma {:induction false} LexLeReflexive(a: Str)
    ensures LexLe(a, a)
    decreases |a|
  {
    if |a| > 0 {
      LexLeReflexive(a[1..]);
    }
  }

  lemma {:induction false} LexLeTotal(a: Str, b: Str)
    ensures LexLe(a, b) || LexLe(b, a)
    decreases |a|
  {
    if |a| > 0 && |b| > 0 && a[0] == b[0] {
      LexLeTotal(a[1..], b[1..]);
    }
  }

  lemma {:induction false} LexLeAntisymmetric(a: Str, b: Str)
    requires LexLe(a, b) && LexLe(b, a)
    ensures a == b
    decreases |a|
  {
    if |a| > 0 {
      LexLeAntisymmetric(a[1..], b[1..]);
      assert a == [a[0]] + a[1..] && b == [b[0]] + b[1..];
    }
  }

  lemma {:induction false} LexLeTransitive(a: Str, b: Str, c: Str)
    requires LexLe(a, b) && LexLe(b, c)
    ensures LexLe(a, c)
    decreases |a|
  {
    if |a| > 0 && a[0] == b[0] && b[0] == c[0] {
      LexLeTransitive(a[1..], b[1..], c[1..]);
    }
  }

  // ---------------------------------------------------------------------
  // Ordering by the byte at one position

  lemma DropZero(s: Str)
    ensures Drop(s, 0) == s
  {
  }

  /** A smaller byte (or the end of the string) at position `d` puts the
      suffix from `d` strictly first. */
  lemma CharCodeOrders(a: Str, b: Str, d: nat)
    requires CharCode(a, d) < CharCode(b, d)
    ensures SuffixLe(a, b, d) && !SuffixLe(b, a, d)
  {
  }

  /** A string that has ended by position `d` comes first from `d` on. */
  lemma EndedComesFirst(a: Str, b: Str, d: nat)
    requires CharCode(a, d) == -1
    ensures SuffixLe(a, b, d)
  {
  }

  /** Two strings with the same byte at `d` are ordered from `d` as they are from `d + 1`. */
  lemma SameCharDescends(a: Str, b: Str, d: nat)
    requires CharCode(a, d) == CharCode(b, d) >= 0
    ensures SuffixLe(a, b, d) <==> SuffixLe(a, b, d + 1)
  {
    assert Drop(a, d)[1..] == Drop(a, d + 1);
    assert Drop(b, d)[1..] == Drop(b, d + 1);
  }
}
