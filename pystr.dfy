/** The two pieces of Python's text library the adapter relies on:
    `str.replace` (every occurrence, left to right, without overlap) and
    `re.match` of a pattern of the shape `<tag>(.+)</tag>`. */
module PyStr {
  import opened Wrappers

  /** `pat` occurs in `s` starting at index `i`. */
  predicate OccursAt(s: string, pat: string, i: nat)
  {
    i + |pat| <= |s| && s[i..i + |pat|] == pat
  }

  /** `pat` is a substring of `s` (Python's `pat in s`). */
  predicate Occurs(s: string, pat: string)
  {
    exists i: nat | i <= |s| :: OccursAt(s, pat, i)
  }

  /** Python's `s.replace(pat, rep)`: scan from the left, and wherever `pat`
      starts, emit `rep` and continue after that occurrence. */
  function ReplaceAll(s: string, pat: string, rep: string): (r: string)
    requires |pat| > 0
    ensures |pat| == |rep| ==> |r| == |s|
    ensures |rep| <= |pat| ==> |r| <= |s|
    decreases |s|
  {
    if |s| < |pat| then s
    else if s[..|pat|] == pat then rep + ReplaceAll(s[|pat|..], pat, rep)
    else [s[0]] + ReplaceAll(s[1..], pat, rep)
  }

  /** `s` with every `c` dropped. */
  function Without(s: string, c: char): (r: string)
    ensures c !in r
    ensures |r| <= |s|
  {
    if s == [] then []
    else if s[0] == c then Without(s[1..], c)
    else [s[0]] + Without(s[1..], c)
  }

  lemma OccursInTail(s: string, pat: string, i: nat)
    requires |s| > 0 && OccursAt(s[1..], pat, i)
    ensures OccursAt(s, pat, i + 1)
  {
    assert s[1..][i..i + |pat|] == s[i + 1..i + 1 + |pat|];
  }

  /** Replacing a pattern that does not occur leaves the string as it is. */
  lemma {:induction false} ReplaceAllAbsent(s: string, pat: string, rep: string)
    requires |pat| > 0
    requires !Occurs(s, pat)
    ensures ReplaceAll(s, pat, rep) == s
    decreases |s|
  {
    if |s| >= |pat| {
      assert !OccursAt(s, pat, 0);
      assert s[0..|pat|] == s[..|pat|];
      if Occurs(s[1..], pat) {
        var i: nat :| OccursAt(s[1..], pat, i);
        OccursInTail(s, pat, i);
        assert false;
      }
      ReplaceAllAbsent(s[1..], pat, rep);
      assert s == [s[0]] + s[1..];
    }
  }

  /** Replacing one character by nothing deletes every occurrence of it. */
  lemma {:induction false} ReplaceCharByNothing(s: string, c: char)
    ensures ReplaceAll(s, [c], "") == Without(s, c)
    decreases |s|
  {
    if s != [] {
      ReplaceCharByNothing(s[1..], c);
      assert s[..1] == [s[0]];
    }
  }

  /** An occurrence at the very start is replaced, and the scan resumes right after it. */
  lemma ReplaceAllAtStart(pat: string, rep: string, rest: string)
    requires |pat| > 0
    ensures ReplaceAll(pat + rest, pat, rep) == rep + ReplaceAll(rest, pat, rep)
  {
    assert (pat + rest)[..|pat|] == pat;
    assert (pat + rest)[|pat|..] == rest;
  }

  // ---------------------------------------------------------------------
  // re.match(b'<tag>(.+)</tag>', line)

  /** Python's `.`: any character except a newline. */
  predicate AnyButNewline(c: char)
  {
    c != '\n'
  }

  /** The pattern `open(.+)close`, anchored at the start of `line`, matches
      with a captured group of exactly `k` characters. */
  predicate CapturesAt(line: string, open: string, close: string, k: nat)
  {
    1 <= k && |open| + k + |close| <= |line|
    && line[..|open|] == open
    && (forall i | |open| <= i < |open| + k :: AnyButNewline(line[i]))
    && line[|open| + k..|open| + k + |close|] == close
  }

  /** Greedy backtracking of `.+`: the longest capture of at most `k` characters. */
  function LongestCapture(line: string, open: string, close: string, k: nat): (r: Option<nat>)
    ensures r.Some? ==> r.value <= k && CapturesAt(line, open, close, r.value)
    ensures forall j: nat | j <= k && CapturesAt(line, open, close, j) :: r.Some? && j <= r.value
  {
    if k == 0 then None
    else if CapturesAt(line, open, close, k) then Some(k)
    else LongestCapture(line, open, close, k - 1)
  }

  /** `re.match(open + "(.+)" + close, line)` and, when it matches, `group(1)`.
      Python's `re.match` anchors at the start only, and the greedy `.+`
      captures up to the last `close` that leaves it at least one character. */
  function MatchGroup(line: string, open: string, close: string): (r: Option<string>)
    ensures r.Some? <==> exists k: nat :: CapturesAt(line, open, close, k)
    ensures r.Some? ==> (CapturesAt(line, open, close, |r.value|)
                         && r.value == line[|open|..|open| + |r.value|])
    ensures r.Some? ==> forall k: nat | CapturesAt(line, open, close, k) :: k <= |r.value|
  {
    var bound := |line| - |open| - |close|;
    if bound <= 0 then None
    else match LongestCapture(line, open, close, bound)
      case None => None
      case Some(k) => Some(line[|open|..|open| + k])
  }

  /** A line that is exactly `open`, a newline-free text `c` and `close`
      yields `c`, even when `c` itself holds `close`: `.+` is greedy. */
  lemma MatchWhole(open: string, c: string, close: string)
    requires |c| >= 1 && forall i | 0 <= i < |c| :: AnyButNewline(c[i])
    ensures MatchGroup(open + c + close, open, close) == Some(c)
  {
    var line := open + c + close;
    var n := |open|;
    assert line[..n] == open;
    assert line[n..n + |c|] == c;
    assert line[n + |c|..n + |c| + |close|] == close;
    assert forall i | n <= i < n + |c| :: line[i] == c[i - n];
    assert CapturesAt(line, open, close, |c|);
    var r := MatchGroup(line, open, close);
    assert CapturesAt(line, open, close, |r.value|);
  }
}
