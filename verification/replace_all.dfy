/**
 A model of `boost::algorithm::replace_all(input, search, format)`: every
 occurrence of `search` is replaced by `format`, scanning left to right.
 Occurrences do not overlap, and the text that was inserted is never searched
 again. An empty search text matches nothing, so the input is unchanged.
 */
module Replace {

  function ReplaceAll<T(==)>(s: seq<T>, pat: seq<T>, rep: seq<T>): (r: seq<T>)
    // a search text whose first element does not occur leaves the input alone
    ensures |pat| > 0 && pat[0] !in s ==> r == s
    // a one-element search text is gone afterwards unless the replacement brings it back
    ensures |pat| == 1 && pat[0] !in rep ==> pat[0] !in r
    // a replacement no longer than its search text never lengthens the input,
    // and one no shorter never shortens it
    ensures |pat| > 0 && |rep| <= |pat| ==> |r| <= |s|
    ensures |rep| >= |pat| ==> |r| >= |s|
    decreases |s|
  {
    if |pat| == 0 || |s| == 0 then s
    else if pat <= s then rep + ReplaceAll(s[|pat|..], pat, rep)
    else [s[0]] + ReplaceAll(s[1..], pat, rep)
  }

  /** An element found in neither the input nor the replacement is not in the result. */
  lemma {:induction false} ReplaceAllKeepsOut<T>(s: seq<T>, pat: seq<T>, rep: seq<T>, x: T)
    requires x !in s && x !in rep
    ensures x !in ReplaceAll(s, pat, rep)
    decreases |s|
  {
    if |pat| > 0 && |s| > 0 {
      if pat <= s {
        ReplaceAllKeepsOut(s[|pat|..], pat, rep, x);
      } else {
        ReplaceAllKeepsOut(s[1..], pat, rep, x);
      }
    }
  }

  /**
   The scan of a concatenation is the concatenation of the scans when no
   occurrence can straddle the seam: always for a one-element search text, and
   for a two-element one when the left part does not end with its first
   element.
   */
  lemma {:induction false} ReplaceAllAppend<T>(a: seq<T>, b: seq<T>, pat: seq<T>, rep: seq<T>)
    requires |pat| == 1 || (|pat| == 2 && (|a| == 0 || a[|a| - 1] != pat[0]))
    ensures ReplaceAll(a + b, pat, rep) == ReplaceAll(a, pat, rep) + ReplaceAll(b, pat, rep)
    decreases |a|
  {
    if |a| == 0 {
      assert a + b == b;
    } else if pat <= a + b {
      // the occurrence starts inside `a`, so by the seam condition it ends there too
      assert a[0] == (a + b)[0] == pat[0];
      assert |a| >= |pat|;
      assert (a + b)[..|pat|] == a[..|pat|];
      assert pat <= a;
      assert (a + b)[|pat|..] == a[|pat|..] + b;
      ReplaceAllAppend(a[|pat|..], b, pat, rep);
    } else {
      assert !(pat <= a) by {
        if |a| >= |pat| {
          assert (a + b)[..|pat|] == a[..|pat|];
        }
      }
      assert (a + b)[1..] == a[1..] + b;
      ReplaceAllAppend(a[1..], b, pat, rep);
    }
  }
}
