/** Python string primitives the codec is built from: the sum of the code
    points of a string, slicing with Python's clamped bounds, and
    `str.split` on a one-character separator. */
module Text {

  /** Sum of `ord(c)` over the characters of `s`. */
  function OrdSum(s: string): nat
  {
    if s == [] then 0 else OrdSum(s[..|s| - 1]) + s[|s| - 1] as int
  }

  lemma {:induction false} OrdSumAppend(a: string, b: string)
    ensures OrdSum(a + b) == OrdSum(a) + OrdSum(b)
  {
    if b != [] {
      assert (a + b)[..|a + b| - 1] == a + b[..|b| - 1];
      OrdSumAppend(a, b[..|b| - 1]);
    } else {
      assert a + b == a;
    }
  }

  /** Replacing one character changes the sum by exactly the difference of
      the two code points. */
  lemma OrdSumUpdate(s: string, i: nat, c: char)
    requires i < |s|
    ensures OrdSum(s[i := c]) == OrdSum(s) - s[i] as int + c as int
  {
    assert s == s[..i] + [s[i]] + s[i + 1..];
    assert s[i := c] == s[..i] + [c] + s[i + 1..];
    OrdSumAppend(s[..i] + [s[i]], s[i + 1..]);
    OrdSumAppend(s[..i], [s[i]]);
    OrdSumAppend(s[..i] + [c], s[i + 1..]);
    OrdSumAppend(s[..i], [c]);
  }

  /** Python's normalisation of one slice bound `k` against a length `n`:
      a negative bound counts from the end, and both are clamped into 0..n. */
  function SliceBound(k: int, n: nat): (b: nat)
    ensures b <= n
    ensures 0 <= k <= n ==> b == k
    ensures k < 0 <= n + k ==> b == n + k
    ensures n + k < 0 ==> b == 0
    ensures n < k ==> b == n
  {
    if k < 0 then (if k + n < 0 then 0 else k + n) else if k > n then n else k
  }

  /** Python's `s[start:stop]`: an empty string when the normalised bounds
      cross. */
  function PySlice(s: string, start: int, stop: int): string
  {
    var lo, hi := SliceBound(start, |s|), SliceBound(stop, |s|);
    if lo < hi then s[lo..hi] else ""
  }

  /** What the two slices taken from a response frame, `s[-5:-1]` and
      `s[1:-5]`, come to for every length of `s`. */
  lemma PySliceTrailer(s: string)
    ensures |s| >= 5 ==> PySlice(s, -5, -1) == s[|s| - 5..|s| - 1]
    ensures |s| < 5 ==> |PySlice(s, -5, -1)| < 4
    ensures |s| >= 6 ==> PySlice(s, 1, -5) == s[1..|s| - 5]
    ensures |s| < 7 ==> PySlice(s, 1, -5) == ""
  {
  }

  /** Inverse of `Split`: the parts glued back together with `d`. */
  function Join(parts: seq<string>, d: char): string
  {
    if parts == [] then ""
    else if |parts| == 1 then parts[0]
    else parts[0] + [d] + Join(parts[1..], d)
  }

  /** Python's `s.split(d)` for a one-character separator: the maximal runs
      between occurrences of `d`, in order; there is always at least one. */
  function Split(s: string, d: char): (r: seq<string>)
    ensures |r| >= 1
    ensures forall k :: 0 <= k < |r| ==> d !in r[k]
    ensures Join(r, d) == s
  {
    if s == [] then [""]
    else
      var rest := Split(s[1..], d);
      if s[0] == d then
        assert ([""] + rest)[1..] == rest;
        [""] + rest
      else
        var r := [[s[0]] + rest[0]] + rest[1..];
        assert r[1..] == rest[1..];
        assert |rest| > 1 ==> Join(rest, d) == rest[0] + [d] + Join(rest[1..], d);
        assert s == [s[0]] + s[1..];
        r
  }

  /** Splitting a joined list gives the list back, as long as no part holds
      the separator.  Together with the contract of `Split` this makes the
      split of a string its unique decomposition around `d`. */
  lemma {:induction false} SplitJoin(parts: seq<string>, d: char)
    requires |parts| >= 1
    requires forall k :: 0 <= k < |parts| ==> d !in parts[k]
    ensures Split(Join(parts, d), d) == parts
    decreases |Join(parts, d)|
  {
    var p := parts[0];
    if p == [] {
      if |parts| == 1 {
      } else {
        var rest := parts[1..];
        assert Join(parts, d) == [d] + Join(rest, d);
        assert Join(parts, d)[1..] == Join(rest, d);
        SplitJoin(rest, d);
        assert parts == [""] + rest;
      }
    } else {
      var tail := [p[1..]] + parts[1..];
      assert tail[1..] == parts[1..];
      assert Join(parts, d) == [p[0]] + Join(tail, d) by {
        assert p == [p[0]] + p[1..];
        if |parts| > 1 {
          assert Join(tail, d) == p[1..] + [d] + Join(parts[1..], d);
        }
      }
      assert Join(parts, d)[1..] == Join(tail, d);
      assert d !in p[1..] by {
        forall k | 0 <= k < |p[1..]| ensures p[1..][k] != d {
          assert p[1..][k] == p[k + 1];
        }
      }
      forall k | 0 <= k < |tail| ensures d !in tail[k] {
        if k > 0 { assert tail[k] == parts[k]; }
      }
      SplitJoin(tail, d);
      assert p[0] != d;
      assert [p[0]] + p[1..] == p;
      assert parts == [p] + parts[1..];
    }
  }

  /** The text of `s` before the first `d` (all of `s` when there is none). */
  function Before(s: string, d: char): (r: string)
    ensures r <= s && d !in r
    ensures |r| < |s| ==> s[|r|] == d
  {
    if s == [] || s[0] == d then "" else [s[0]] + Before(s[1..], d)
  }

  /** The text of `s` after its first `d`. */
  function After(s: string, d: char): (r: string)
    requires d in s
    ensures s == Before(s, d) + [d] + r
  {
    var i := |Before(s, d)|;
    assert s == s[..i] + [s[i]] + s[i + 1..];
    s[i + 1..]
  }

  /** `s.split(d)[0]` is the text before the first `d`; when `d` occurs,
      the remaining parts are the split of the text after it. */
  lemma SplitFirst(s: string, d: char)
    ensures Split(s, d)[0] == Before(s, d)
    ensures d !in s <==> Split(s, d) == [s]
    ensures d in s ==> Split(s, d) == [Before(s, d)] + Split(After(s, d), d)
  {
    if d in s {
      var b, a := Before(s, d), After(s, d);
      var parts := [b] + Split(a, d);
      assert parts[1..] == Split(a, d);
      assert Join(parts, d) == s;
      forall k | 0 <= k < |parts| ensures d !in parts[k] {
        if k > 0 { assert parts[k] == Split(a, d)[k - 1]; }
      }
      SplitJoin(parts, d);
    } else {
      assert Before(s, d) == s;
      SplitJoin([s], d);
    }
  }

  lemma JoinTwo(a: string, b: string, d: char)
    ensures Join([a, b], d) == a + [d] + b
  {
    assert [a, b][1..] == [b];
  }

  lemma JoinThree(a: string, b: string, c: string, d: char)
    ensures Join([a, b, c], d) == a + [d] + b + [d] + c
  {
    assert [a, b, c][1..] == [b, c];
    JoinTwo(b, c, d);
  }

  /** The text before the first `d` of `a + b`, when `a` has no `d` and `b`
      is empty or starts with `d`, is `a`. */
  lemma BeforeConcat(a: string, b: string, d: char)
    requires d !in a && (b == [] || b[0] == d)
    ensures Before(a + b, d) == a
  {
    assert a == (a + b)[..|a|];
  }
}
