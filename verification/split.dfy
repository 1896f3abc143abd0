/**
 Cutting a string at the last occurrence of a character, as Rust's
 `str::rsplit_once(char)` does: the part before the separator and the part
 after it, or nothing when the separator does not occur.
 */
module Split {
  import opened Wrappers

  /** `s` is `pre`, then `c`, then `suf`, and `suf` holds no `c`:
      the cut is at the last `c` of `s`. */
  ghost predicate IsLastSplit(s: string, c: char, pre: string, suf: string)
  {
    s == pre + [c] + suf && c !in suf
  }

  /** The index of the last `c` in `s`, searching from the end. */
  function LastIndexOf(s: string, c: char): (r: Option<nat>)
    ensures r.None? <==> c !in s
    ensures r.Some? ==> r.value < |s| && s[r.value] == c
    ensures r.Some? ==> c !in s[r.value + 1..]
    decreases |s|
  {
    if |s| == 0 then None
    else if s[|s| - 1] == c then Some(|s| - 1)
    else
      var init := s[..|s| - 1];
      assert s == init + [s[|s| - 1]];
      var r := LastIndexOf(init, c);
      assert r.Some? ==> s[r.value + 1..] == init[r.value + 1..] + [s[|s| - 1]];
      r
  }

  /** `s.rsplit_once(c)`. */
  function RSplitOnce(s: string, c: char): (r: Option<(string, string)>)
    ensures r.None? <==> c !in s
    ensures r.Some? ==> IsLastSplit(s, c, r.value.0, r.value.1)
  {
    match LastIndexOf(s, c)
    case None => None
    case Some(i) =>
      assert s == s[..i] + [c] + s[i + 1..];
      Some((s[..i], s[i + 1..]))
  }

  /** A string has at most one cut at its last `c`. */
  lemma {:induction false} LastSplitUnique(s: string, c: char, p1: string, q1: string, p2: string, q2: string)
    requires IsLastSplit(s, c, p1, q1)
    requires IsLastSplit(s, c, p2, q2)
    ensures p1 == p2 && q1 == q2
  {
    if |q1| < |q2| {
      CutCharInLongerSuffix(s, c, p1, q1, p2, q2);
    } else if |q2| < |q1| {
      CutCharInLongerSuffix(s, c, p2, q2, p1, q1);
    } else {
      assert q1 == s[|p1| + 1..] == q2;
      assert p1 == s[..|p1|] == p2;
    }
  }

  /** If a second cut leaves a longer suffix, that suffix holds the first cut's `c`. */
  lemma CutCharInLongerSuffix(s: string, c: char, p1: string, q1: string, p2: string, q2: string)
    requires s == p1 + [c] + q1 && s == p2 + [c] + q2
    requires |q1| < |q2|
    ensures c in q2
  {
    var k := |p1|;
    assert s[k] == c;
    assert q2[k - |p2| - 1] == s[k];
  }

  /** `RSplitOnce` returns exactly the cut at the last `c`, and that cut exists
      whenever `s` holds a `c`. */
  lemma {:induction false} RSplitOnceIsLastSplit(s: string, c: char, pre: string, suf: string)
    ensures RSplitOnce(s, c) == Some((pre, suf)) <==> IsLastSplit(s, c, pre, suf)
  {
    if IsLastSplit(s, c, pre, suf) {
      assert s[|pre|] == c;
      var r := RSplitOnce(s, c);
      LastSplitUnique(s, c, r.value.0, r.value.1, pre, suf);
    }
  }

  /** Joining two parts with `c` and splitting again gives the parts back,
      provided the second part holds no `c`. */
  lemma {:induction false} RSplitOnceOfJoin(pre: string, c: char, suf: string)
    requires c !in suf
    ensures RSplitOnce(pre + [c] + suf, c) == Some((pre, suf))
  {
    RSplitOnceIsLastSplit(pre + [c] + suf, c, pre, suf);
  }
}
