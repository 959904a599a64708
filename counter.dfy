/** The comparison primitives and the counter of inspected characters they share. */
module Comparison {
  import opened Lex

  /** The process-wide count of character inspections. One object stands for
      the static field: every primitive that inspects a character bumps it. */
  class ComparisonCounter {
    var characterComparisons: nat

    constructor ()
      ensures characterComparisons == 0
    {
      characterComparisons := 0;
    }

    method Reset()
      modifies this
      ensures characterComparisons == 0
    {
      characterComparisons := 0;
    }

    method GetCount() returns (n: nat)
      ensures n == characterComparisons
    {
      n := characterComparisons;
    }

    /** Three-way comparison, one count per byte pair inspected. */
    method CompareStrings(a: Str, b: Str) returns (r: int)
      modifies this
      ensures r == Compare(a, b)
      ensures r <= 0 <==> LexLe(a, b)
      ensures characterComparisons == old(characterComparisons) + CompareCost(a, b)
    {
      CompareIsLexLe(a, b);
      var minLen := Min(|a|, |b|);
      var i := 0;
      while i < minLen
        invariant 0 <= i <= minLen
        invariant a[..i] == b[..i]
        invariant characterComparisons == old(characterComparisons) + i
      {
        characterComparisons := characterComparisons + 1;
        if a[i] < b[i] {
          CommonPrefixLenUnique(a, b, i);
          return -1;
        }
        if a[i] > b[i] {
          CommonPrefixLenUnique(a, b, i);
          return 1;
        }
        assert a[..i + 1] == a[..i] + [a[i]];
        assert b[..i + 1] == b[..i] + [b[i]];
        i := i + 1;
      }
      CommonPrefixLenUnique(a, b, minLen);
      if |a| < |b| {
        return -1;
      }
      if |a| > |b| {
        return 1;
      }
      return 0;
    }

    /** Length of the common prefix, one count per byte pair inspected. */
    method CommonPrefixLength(a: Str, b: Str) returns (len: int)
      modifies this
      ensures len == CommonPrefixLen(a, b)
      ensures characterComparisons == old(characterComparisons) + CompareCost(a, b)
    {
      len := 0;
      var minLen := Min(|a|, |b|);
      var i := 0;
      while i < minLen
        invariant 0 <= i <= minLen
        invariant len == i
        invariant a[..i] == b[..i]
        invariant characterComparisons == old(characterComparisons) + i
      {
        characterComparisons := characterComparisons + 1;
        if a[i] != b[i] {
          break;
        }
        assert a[..i + 1] == a[..i] + [a[i]];
        assert b[..i + 1] == b[..i] + [b[i]];
        len := len + 1;
        i := i + 1;
      }
      CommonPrefixLenUnique(a, b, len);
    }
  }
}
