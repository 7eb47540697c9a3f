/** The pieces of Python's `str.split(sep)` that the extractors use: the first and the second piece. */
module Text {
  import opened Wrappers

  /** `sep` occurs in `s` starting at position `j`. */
  predicate OccursAt(s: string, sep: string, j: nat) {
    j + |sep| <= |s| && s[j..j + |sep|] == sep
  }

  /** A one-character separator occurs exactly where that character stands. */
  lemma OccursAtChar(s: string, c: char)
    ensures forall j: nat :: OccursAt(s, [c], j) <==> j < |s| && s[j] == c
  {
    forall j: nat ensures OccursAt(s, [c], j) <==> j < |s| && s[j] == c {
      if j < |s| {
        assert s[j..j + 1] == [s[j]];
      }
    }
  }

  /** The first position at or after `from` where `sep` occurs in `s`. */
  function IndexOf(s: string, sep: string, from: nat): (r: Option<nat>)
    requires |sep| > 0
    ensures r.Some? ==> from <= r.value && OccursAt(s, sep, r.value)
    ensures r.Some? ==> forall j :: from <= j < r.value ==> !OccursAt(s, sep, j)
    ensures r.None? ==> forall j :: from <= j ==> !OccursAt(s, sep, j)
    decreases |s| - from
  {
    if from + |sep| > |s| then None
    else if OccursAt(s, sep, from) then Some(from)
    else IndexOf(s, sep, from + 1)
  }

  /** `s.split(sep)[0]`: the text before the first `sep`, or all of `s` when `sep` does not occur. */
  function SplitHead(s: string, sep: string): (r: string)
    requires |sep| > 0
    ensures r <= s
    ensures forall j :: 0 <= j < |r| ==> !OccursAt(s, sep, j)
    ensures |r| < |s| ==> OccursAt(s, sep, |r|)
  {
    match IndexOf(s, sep, 0)
    case None => s
    case Some(i) => s[..i]
  }

  /** The first piece of a split at a one-character separator does not hold that character. */
  lemma HeadLacksChar(s: string, c: char)
    ensures c !in SplitHead(s, [c])
  {
    var r := SplitHead(s, [c]);
    OccursAtChar(s, c);
    forall j | 0 <= j < |r| ensures r[j] != c {
      assert r[j] == s[j];
    }
  }

  /**
   * `s.split(sep)[1]`: the text between the first and the second `sep` (or the end of `s`).
   * `None` stands for the IndexError Python raises when `sep` does not occur at all.
   */
  function SplitSecond(s: string, sep: string): (r: Option<string>)
    requires |sep| > 0
    ensures r.None? <==> forall j :: !OccursAt(s, sep, j)
    ensures r.Some? ==>
      var head := SplitHead(s, sep);
      |head| + |sep| <= |s| && r.value == SplitHead(s[|head| + |sep|..], sep)
  {
    var head := SplitHead(s, sep);
    if |head| == |s| then None else Some(SplitHead(s[|head| + |sep|..], sep))
  }

  /** Splitting `a + sep + b` gives `a` back as the first piece when no `sep` starts inside `a`. */
  lemma SplitHeadJoin(a: string, sep: string, b: string)
    requires |sep| > 0
    requires forall j :: 0 <= j < |a| ==> !OccursAt(a + sep + b, sep, j)
    ensures SplitHead(a + sep + b, sep) == a
  {
    var s := a + sep + b;
    assert s[|a|..|a| + |sep|] == sep;
    assert OccursAt(s, sep, |a|);
    var r := SplitHead(s, sep);
    assert |r| == |a|;
    assert r == s[..|a|];
    assert s[..|a|] == a;
  }

  /** The pieces after a first `sep` that follows an `a` free of `sep`: `split(sep)[1]` of `a + sep + b` is `split(sep)[0]` of `b`. */
  lemma SplitSecondJoin(a: string, sep: string, b: string)
    requires |sep| > 0
    requires forall j :: 0 <= j < |a| ==> !OccursAt(a + sep + b, sep, j)
    ensures SplitSecond(a + sep + b, sep) == Some(SplitHead(b, sep))
  {
    var s := a + sep + b;
    SplitHeadJoin(a, sep, b);
    assert OccursAt(s, sep, |a|) by { assert s[|a|..|a| + |sep|] == sep; }
    assert s[|a| + |sep|..] == b;
  }

  /** No `sep` starts inside `x` when `x` lacks the first character of `sep`, whatever follows `x`. */
  lemma NoStartBefore(x: string, y: string, sep: string)
    requires |sep| > 0 && sep[0] !in x
    ensures forall j :: 0 <= j < |x| ==> !OccursAt(x + y, sep, j)
  {
  }

  /** The first piece is free of `sep`. */
  lemma SplitHeadFree(s: string, sep: string)
    requires |sep| > 0
    ensures forall j :: !OccursAt(SplitHead(s, sep), sep, j)
  {
    var r := SplitHead(s, sep);
    forall j: nat ensures !OccursAt(r, sep, j) {
      if OccursAt(r, sep, j) {
        assert r == s[..|r|];
        assert r[j..j + |sep|] == s[j..j + |sep|];
        assert OccursAt(s, sep, j);
      }
    }
  }

  /** Cutting `s` to a prefix `t` that still holds the first `sep` of `s` keeps the first piece. */
  lemma SplitHeadPrefix(s: string, t: string, sep: string)
    requires |sep| > 0 && t <= s
    requires |SplitHead(s, sep)| + |sep| <= |t|
    ensures SplitHead(t, sep) == SplitHead(s, sep)
  {
    var h, h' := SplitHead(s, sep), SplitHead(t, sep);
    var i := |h|;
    assert OccursAt(s, sep, i);
    assert OccursAt(t, sep, i) by { assert t[i..i + |sep|] == s[i..i + |sep|]; }
    assert |h'| <= i;
    if |h'| < i {
      assert OccursAt(t, sep, |h'|);
      assert OccursAt(s, sep, |h'|) by { assert t[|h'|..|h'| + |sep|] == s[|h'|..|h'| + |sep|]; }
      assert false;
    }
  }

  /** A prefix of a text free of `sep` is free of `sep`. */
  lemma PrefixFree(r: string, s: string, sep: string)
    requires r <= s
    requires forall j :: !OccursAt(s, sep, j)
    ensures forall j :: !OccursAt(r, sep, j)
  {
    forall j: nat ensures !OccursAt(r, sep, j) {
      if OccursAt(r, sep, j) {
        assert r == s[..|r|];
        assert r[j..j + |sep|] == s[j..j + |sep|];
        assert OccursAt(s, sep, j);
      }
    }
  }
}
