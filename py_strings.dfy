/**
 * The few Python `str` operations the converter relies on: `find` of one
 * character, `split(sep)`, `split(sep, 1)` and `strip()`, together with the
 * `sep.join(parts)` that `split` inverts.
 */
module PyStrings {

  /** The characters `str.strip()` removes, restricted to ASCII:
      tab, line feed, vertical tab, form feed, carriage return,
      the four information separators and the space. */
  predicate IsSpace(c: char) {
    ('\t' <= c <= '\r') || ('\U{1C}' <= c <= ' ')
  }

  predicate AllSpace(s: string) {
    forall i :: 0 <= i < |s| ==> IsSpace(s[i])
  }

  /** Neither end of `s` is a space. */
  predicate IsStripped(s: string) {
    s == [] || (!IsSpace(s[0]) && !IsSpace(s[|s| - 1]))
  }

  /** `s.find(c)`: the index of the first `c` in `s`, or -1 when there is none. */
  function Find(s: string, c: char): (r: int)
    ensures -1 <= r < |s|
    ensures r == -1 <==> c !in s
    ensures r >= 0 ==> s[r] == c && c !in s[..r]
  {
    if s == [] then -1
    else if s[0] == c then 0
    else
      var k := Find(s[1..], c);
      assert s[1..] == s[1..];
      if k < 0 then -1
      else
        assert s[..k + 1] == [s[0]] + s[1..][..k];
        k + 1
  }

  /** A character that `c` precedes in `p + [c] + t` with `c !in p` is found at `|p|`. */
  lemma FindAfterPrefix(p: string, c: char, t: string)
    requires c !in p
    ensures Find(p + [c] + t, c) == |p|
  {
    var s := p + [c] + t;
    var r := Find(s, c);
    assert s[|p|] == c;
    assert s[..|p|] == p;
  }

  /** `sep.join(parts)` for a one-character separator. */
  function Join(parts: seq<string>, c: char): string
  {
    if |parts| == 0 then ""
    else if |parts| == 1 then parts[0]
    else parts[0] + [c] + Join(parts[1..], c)
  }

  /** `s.split(c)`: never empty, no piece holds `c`, and joining the pieces gives `s` back. */
  function Split(s: string, c: char): (r: seq<string>)
    ensures |r| >= 1
    ensures forall i :: 0 <= i < |r| ==> c !in r[i]
    ensures Join(r, c) == s
    decreases |s|
  {
    var i := Find(s, c);
    if i < 0 then [s]
    else
      var rest := Split(s[i + 1..], c);
      assert ([s[..i]] + rest)[1..] == rest;
      assert s == s[..i] + [c] + s[i + 1..];
      [s[..i]] + rest
  }

  /** Splitting undoes joining: the pieces of `Join(parts, c)` are `parts`. */
  lemma {:induction false} SplitJoin(parts: seq<string>, c: char)
    requires |parts| >= 1
    requires forall i :: 0 <= i < |parts| ==> c !in parts[i]
    ensures Split(Join(parts, c), c) == parts
    decreases |parts|
  {
    if |parts| > 1 {
      var tail := parts[1..];
      assert forall i :: 0 <= i < |tail| ==> c !in tail[i] by {
        forall i | 0 <= i < |tail| ensures c !in tail[i] { assert tail[i] == parts[i + 1]; }
      }
      SplitJoin(tail, c);
      SplitAfterFirst(parts[0], c, Join(tail, c));
      assert parts == [parts[0]] + tail;
    }
  }

  /** The pieces of `p + [c] + t`, when `p` holds no `c`, are `p` followed by the pieces of `t`. */
  lemma SplitAfterFirst(p: string, c: char, t: string)
    requires c !in p
    ensures Split(p + [c] + t, c) == [p] + Split(t, c)
  {
    var s := p + [c] + t;
    FindAfterPrefix(p, c, t);
    assert s[..|p|] == p;
    assert s[|p| + 1..] == t;
  }

  /** The last piece of a join is a suffix of it, preceded by `c` when there are several pieces. */
  lemma {:induction false} JoinEndsWithLast(parts: seq<string>, c: char)
    requires |parts| >= 1
    ensures var s, last := Join(parts, c), parts[|parts| - 1];
      |last| <= |s| && s[|s| - |last|..] == last &&
      (|parts| > 1 ==> |last| < |s| && s[|s| - |last| - 1] == c)
    decreases |parts|
  {
    if |parts| > 1 {
      JoinEndsWithLast(parts[1..], c);
      var rest := Join(parts[1..], c);
      var s := parts[0] + [c] + rest;
      assert s[|s| - |rest|..] == rest;
    }
  }

  /** `s.split(c, 1)`: the whole string when `c` is absent, otherwise the text
      before the first `c` and everything after it. */
  function SplitOnce(s: string, c: char): (r: seq<string>)
    ensures |r| == 1 || |r| == 2
    ensures |r| == 1 <==> c !in s
    ensures |r| == 1 ==> r[0] == s
    ensures |r| == 2 ==> c !in r[0] && s == r[0] + [c] + r[1]
  {
    var i := Find(s, c);
    if i < 0 then [s]
    else
      assert s == s[..i] + [c] + s[i + 1..];
      [s[..i], s[i + 1..]]
  }

  /** `s.lstrip()`: drops the spaces at the start; what is left does not start
      with a space. */
  function StripLeft(s: string): (r: string)
    ensures |r| <= |s|
    ensures r == [] || !IsSpace(r[0])
  {
    if s != [] && IsSpace(s[0]) then StripLeft(s[1..]) else s
  }

  /** `s.rstrip()`: drops the spaces at the end; what is left does not end
      with a space. */
  function StripRight(s: string): (r: string)
    ensures |r| <= |s|
    ensures r == [] || !IsSpace(r[|r| - 1])
  {
    if s != [] && IsSpace(s[|s| - 1]) then StripRight(s[..|s| - 1]) else s
  }

  /** `s.strip()`: the result neither starts nor ends with a space. */
  function Strip(s: string): (r: string)
    ensures |r| <= |s|
    ensures IsStripped(r)
  {
    var left := StripLeft(s);
    StripRightKeepsPrefix(left);
    StripRight(left)
  }

  /** `lstrip` keeps a suffix and removes only spaces. */
  lemma {:induction false} StripLeftRemovesSpaces(s: string)
    ensures var k := |s| - |StripLeft(s)|;
      StripLeft(s) == s[k..] && AllSpace(s[..k])
  {
    if s != [] && IsSpace(s[0]) {
      StripLeftRemovesSpaces(s[1..]);
      var k := |s| - |StripLeft(s)|;
      assert s[1..][k - 1..] == s[k..];
      assert s[..k] == [s[0]] + s[1..][..k - 1];
    }
  }

  /** `rstrip` keeps a prefix. */
  lemma {:induction false} StripRightKeepsPrefix(s: string)
    ensures StripRight(s) == s[..|StripRight(s)|]
  {
    if s != [] && IsSpace(s[|s| - 1]) {
      StripRightKeepsPrefix(s[..|s| - 1]);
      var k := |StripRight(s)|;
      assert s[..|s| - 1][..k] == s[..k];
    }
  }

  /** `rstrip` removes only spaces. */
  lemma {:induction false} StripRightRemovesSpaces(s: string)
    ensures AllSpace(s[|StripRight(s)|..])
  {
    if s != [] && IsSpace(s[|s| - 1]) {
      StripRightRemovesSpaces(s[..|s| - 1]);
      var k := |StripRight(s)|;
      assert s[k..] == s[..|s| - 1][k..] + [s[|s| - 1]];
    }
  }

  lemma SliceOfSuffix(s: string, k: nat, n: nat)
    requires k + n <= |s|
    ensures s[k..][..n] == s[k..k + n] && s[k..][n..] == s[k + n..]
  {
  }

  /** The result of `strip` sits in `s` where `lstrip` stops. */
  lemma StripIsSlice(s: string)
    ensures var k, r := |s| - |StripLeft(s)|, Strip(s);
      k + |r| <= |s| && s[k..k + |r|] == r
  {
    var left, r := StripLeft(s), Strip(s);
    var k := |s| - |left|;
    StripLeftRemovesSpaces(s);
    StripRightKeepsPrefix(left);
    SliceOfSuffix(s, k, |r|);
  }

  /** Only spaces follow the result of `strip` in `s`. */
  lemma StripTrailingSpaces(s: string)
    ensures var k, r := |s| - |StripLeft(s)|, Strip(s);
      k + |r| <= |s| && AllSpace(s[k + |r|..])
  {
    var left, r := StripLeft(s), Strip(s);
    var k := |s| - |left|;
    StripLeftRemovesSpaces(s);
    StripRightRemovesSpaces(left);
    SliceOfSuffix(s, k, |r|);
  }

  /** `strip` removes only spaces, from both ends: the result sits in `s`
      at the index where `lstrip` stops, with only spaces before and after it. */
  lemma StripRemovesSpaces(s: string)
    ensures var k, r := |s| - |StripLeft(s)|, Strip(s);
      k + |r| <= |s| && s[k..k + |r|] == r &&
      AllSpace(s[..k]) && AllSpace(s[k + |r|..])
  {
    StripIsSlice(s);
    StripLeftRemovesSpaces(s);
    StripTrailingSpaces(s);
  }

  /** Stripping twice is stripping once. */
  lemma StripIdempotent(s: string)
    ensures Strip(Strip(s)) == Strip(s)
  {
    var r := Strip(s);
    assert AllSpace([]);
    StripPadded([], r, []);
    assert [] + r + [] == r;
  }

  /** Spaces before a text that does not start with one are what `lstrip` removes. */
  lemma {:induction false} StripLeftPadded(pre: string, t: string)
    requires AllSpace(pre)
    requires t == [] || !IsSpace(t[0])
    ensures StripLeft(pre + t) == t
    decreases |pre|
  {
    if pre == [] {
      assert pre + t == t;
    } else {
      assert (pre + t)[0] == pre[0];
      assert (pre + t)[1..] == pre[1..] + t;
      StripLeftPadded(pre[1..], t);
    }
  }

  /** Spaces after a text that does not end with one are what `rstrip` removes. */
  lemma {:induction false} StripRightPadded(t: string, post: string)
    requires AllSpace(post)
    requires t == [] || !IsSpace(t[|t| - 1])
    ensures StripRight(t + post) == t
    decreases |post|
  {
    if post == [] {
      assert t + post == t;
    } else {
      var s := t + post;
      assert s[|s| - 1] == post[|post| - 1];
      assert s[..|s| - 1] == t + post[..|post| - 1];
      StripRightPadded(t, post[..|post| - 1]);
    }
  }

  lemma AllSpaceAppend(a: string, b: string)
    requires AllSpace(a) && AllSpace(b)
    ensures AllSpace(a + b)
  {
    forall i | 0 <= i < |a + b| ensures IsSpace((a + b)[i]) {
      if i < |a| { assert (a + b)[i] == a[i]; } else { assert (a + b)[i] == b[i - |a|]; }
    }
  }

  /** Strip has exactly one answer: a text padded by spaces strips back to itself. */
  lemma StripPadded(pre: string, r: string, post: string)
    requires AllSpace(pre) && AllSpace(post)
    requires IsStripped(r)
    ensures Strip(pre + r + post) == r
  {
    if r == [] {
      AllSpaceAppend(pre, post);
      StripLeftPadded(pre + post, []);
      assert pre + r + post == (pre + post) + [];
    } else {
      assert (r + post)[0] == r[0];
      StripLeftPadded(pre, r + post);
      assert pre + r + post == pre + (r + post);
      StripRightPadded(r, post);
    }
  }
}
