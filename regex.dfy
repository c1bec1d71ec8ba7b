/** The part of Go's regexp package that the example test uses: patterns built from
    literal characters and the unescaped dot, which matches any character except a
    newline. Matching is leftmost-first, `(.+)` is greedy, and ReplaceAll rewrites
    the non-overlapping matches found scanning left to right. */
module FixedRegex {
  import opened Wrappers

  /** One pattern position: a literal character or `.`. */
  datatype Tok = Lit(c: char) | AnyChar

  predicate TokMatches(t: Tok, c: char) {
    match t
    case Lit(d) => c == d
    case AnyChar => c != '\n'
  }

  /** The pattern that matches exactly the text `s` (a regexp with no metacharacters). */
  function Literal(s: string): (p: seq<Tok>)
    ensures |p| == |s|
    ensures forall k :: 0 <= k < |s| ==> p[k] == Lit(s[k])
  {
    seq(|s|, k requires 0 <= k < |s| => Lit(s[k]))
  }

  /** The pattern of `s` read as a regexp whose only metacharacter is `.`. */
  function DotsAsWildcards(s: string): (p: seq<Tok>)
    ensures |p| == |s|
    ensures forall k :: 0 <= k < |s| ==> p[k] == (if s[k] == '.' then AnyChar else Lit(s[k]))
  {
    seq(|s|, k requires 0 <= k < |s| => if s[k] == '.' then AnyChar else Lit(s[k]))
  }

  /** No position of the pattern can match a newline, so a match never spans two lines. */
  predicate SingleLine(pat: seq<Tok>) {
    forall k :: 0 <= k < |pat| ==> !TokMatches(pat[k], '\n')
  }

  predicate MatchesAt(s: string, pat: seq<Tok>, i: int) {
    0 <= i && i + |pat| <= |s| &&
    forall k :: 0 <= k < |pat| ==> TokMatches(pat[k], s[i + k])
  }

  ghost predicate Occurs(s: string, pat: seq<Tok>) {
    exists i :: MatchesAt(s, pat, i)
  }

  lemma MatchesInContext(x: string, y: string, z: string, pat: seq<Tok>, i: int)
    requires MatchesAt(y, pat, i)
    ensures MatchesAt(x + y + z, pat, |x| + i)
  {
    forall k | 0 <= k < |pat|
      ensures TokMatches(pat[k], (x + y + z)[|x| + i + k])
    {
      assert (x + y + z)[|x| + i + k] == y[i + k];
    }
  }

  lemma MatchesShift(s: string, pat: seq<Tok>, d: nat, i: int)
    requires d <= |s|
    ensures MatchesAt(s[d..], pat, i) <==> 0 <= i && MatchesAt(s, pat, i + d)
  {
    if 0 <= i && i + |pat| <= |s| - d {
      forall k | 0 <= k < |pat|
        ensures TokMatches(pat[k], s[d..][i + k]) <==> TokMatches(pat[k], s[i + d + k])
      {
        assert s[d..][i + k] == s[i + d + k];
      }
    }
  }

  lemma DotsAsWildcardsMatchItself(s: string)
    ensures MatchesAt(s, DotsAsWildcards(s), 0)
  {
  }

  lemma LiteralMatchesItself(s: string)
    ensures MatchesAt(s, Literal(s), 0)
  {
  }

  lemma MatchesConcat(s: string, p: seq<Tok>, q: seq<Tok>, i: int)
    ensures MatchesAt(s, p + q, i) <==> MatchesAt(s, p, i) && MatchesAt(s, q, i + |p|)
  {
    if MatchesAt(s, p, i) && MatchesAt(s, q, i + |p|) {
      forall k | 0 <= k < |p + q|
        ensures TokMatches((p + q)[k], s[i + k])
      {
        if k >= |p| {
          assert (p + q)[k] == q[k - |p|];
          assert TokMatches(q[k - |p|], s[i + |p| + (k - |p|)]);
        }
      }
    }
    if MatchesAt(s, p + q, i) {
      forall k | 0 <= k < |p|
        ensures TokMatches(p[k], s[i + k])
      {
        assert (p + q)[k] == p[k];
      }
      forall k | 0 <= k < |q|
        ensures TokMatches(q[k], s[i + |p| + k])
      {
        assert (p + q)[|p| + k] == q[k];
      }
    }
  }

  // ---------------------------------------------------------------------------
  // Regexp.ReplaceAll

  /** Every non-overlapping match of `pat`, found left to right, replaced by `rep`
      (inserted literally). */
  function ReplaceAll(s: string, pat: seq<Tok>, rep: string): (r: string)
    requires |pat| > 0
    ensures forall c :: c in r ==> c in s || c in rep
    decreases |s|
  {
    if |s| < |pat| then s
    else if MatchesAt(s, pat, 0) then
      var tail := ReplaceAll(s[|pat|..], pat, rep);
      assert forall c :: c in s[|pat|..] ==> c in s;
      rep + tail
    else
      var tail := ReplaceAll(s[1..], pat, rep);
      assert forall c :: c in s[1..] ==> c in s;
      [s[0]] + tail
  }

  /** Text with no occurrence of the pattern comes back unchanged. */
  lemma {:induction false} ReplaceAllNoMatch(s: string, pat: seq<Tok>, rep: string)
    requires |pat| > 0
    requires !Occurs(s, pat)
    ensures ReplaceAll(s, pat, rep) == s
    decreases |s|
  {
    if |s| >= |pat| {
      assert !MatchesAt(s, pat, 0);
      forall i
        ensures !MatchesAt(s[1..], pat, i)
      {
        MatchesShift(s, pat, 1, i);
      }
      ReplaceAllNoMatch(s[1..], pat, rep);
      assert [s[0]] + s[1..] == s;
    }
  }

  /** Text before the first match is copied, the match is replaced, and the scan
      resumes right after it. */
  lemma {:induction false} ReplaceAllFirst(a: string, m: string, b: string, pat: seq<Tok>, rep: string)
    requires |pat| > 0 && |m| == |pat| && MatchesAt(m, pat, 0)
    requires forall i :: 0 <= i < |a| ==> !MatchesAt(a + m + b, pat, i)
    ensures ReplaceAll(a + m + b, pat, rep) == a + rep + ReplaceAll(b, pat, rep)
    decreases |a|, 1
  {
    if a == [] {
      var s := a + m + b;
      assert s == m + b;
      MatchesInContext([], m, b, pat, 0);
      assert s[|pat|..] == b;
    } else {
      ReplaceAllFirstSkip(a, m, b, pat, rep);
    }
  }

  /** `ReplaceAllFirst` when `a` is not empty: its first character is copied. */
  lemma {:induction false} ReplaceAllFirstSkip(a: string, m: string, b: string, pat: seq<Tok>, rep: string)
    requires |pat| > 0 && |m| == |pat| && MatchesAt(m, pat, 0) && a != []
    requires forall i :: 0 <= i < |a| ==> !MatchesAt(a + m + b, pat, i)
    ensures ReplaceAll(a + m + b, pat, rep) == a + rep + ReplaceAll(b, pat, rep)
    decreases |a|, 0
  {
    var s := a + m + b;
    var t := a[1..] + m + b;
    assert s[1..] == t;
    assert !MatchesAt(s, pat, 0);
    forall i | 0 <= i < |a[1..]|
      ensures !MatchesAt(t, pat, i)
    {
      MatchesShift(s, pat, 1, i);
    }
    ReplaceAllFirst(a[1..], m, b, pat, rep);
    ReplaceAllCopiesHead(s, pat, rep);
    ConsPrefix(a, rep, ReplaceAll(b, pat, rep));
  }

  lemma ConsPrefix(a: string, r: string, q: string)
    requires a != []
    ensures [a[0]] + (a[1..] + r + q) == a + r + q
  {
    assert [a[0]] + a[1..] == a;
  }

  /** A match at the front, followed by text without one, is the only thing replaced. */
  lemma ReplaceAllLeading(m: string, rest: string, pat: seq<Tok>, rep: string)
    requires |pat| > 0 && |m| == |pat| && MatchesAt(m, pat, 0) && !Occurs(rest, pat)
    ensures ReplaceAll(m + rest, pat, rep) == rep + rest
  {
    var s := m + rest;
    assert s[|pat|..] == rest;
    MatchesInContext([], m, rest, pat, 0);
    assert [] + m + rest == s;
    ReplaceAllNoMatch(rest, pat, rep);
  }

  /** Replacing in a concatenation replaces in each part, provided no match starts
      in `x` and runs into `y`. */
  lemma {:induction false} ReplaceAllAppend(x: string, y: string, pat: seq<Tok>, rep: string)
    requires |pat| > 0
    requires forall i :: |x| - |pat| < i < |x| ==> !MatchesAt(x + y, pat, i)
    ensures ReplaceAll(x + y, pat, rep) == ReplaceAll(x, pat, rep) + ReplaceAll(y, pat, rep)
    decreases |x|, 2
  {
    if x == [] {
      assert x + y == y;
    } else if |x + y| < |pat| {
    } else if |x| >= |pat| && MatchesAt(x, pat, 0) {
      ReplaceAllAppendMatch(x, y, pat, rep);
    } else {
      ReplaceAllAppendSkip(x, y, pat, rep);
    }
  }

  /** `ReplaceAllAppend` when `x` starts with a match: it is replaced. */
  lemma {:induction false} ReplaceAllAppendMatch(x: string, y: string, pat: seq<Tok>, rep: string)
    requires 0 < |pat| <= |x| && MatchesAt(x, pat, 0)
    requires forall i :: |x| - |pat| < i < |x| ==> !MatchesAt(x + y, pat, i)
    ensures ReplaceAll(x + y, pat, rep) == ReplaceAll(x, pat, rep) + ReplaceAll(y, pat, rep)
    decreases |x|, 1
  {
    var s := x + y;
    SameStartMatch(x, y, pat);
    ReplaceAllAppendRest(x, y, pat, rep, |pat|);
    calc {
      ReplaceAll(s, pat, rep);
      rep + ReplaceAll(s[|pat|..], pat, rep);
      rep + (ReplaceAll(x[|pat|..], pat, rep) + ReplaceAll(y, pat, rep));
      ReplaceAll(x, pat, rep) + ReplaceAll(y, pat, rep);
    }
  }

  /** `ReplaceAllAppend` when no match starts at the front of `x`: its first
      character is copied. */
  lemma {:induction false} ReplaceAllAppendSkip(x: string, y: string, pat: seq<Tok>, rep: string)
    requires 0 < |pat| <= |x + y| && x != []
    requires |x| < |pat| || !MatchesAt(x, pat, 0)
    requires forall i :: |x| - |pat| < i < |x| ==> !MatchesAt(x + y, pat, i)
    ensures ReplaceAll(x + y, pat, rep) == ReplaceAll(x, pat, rep) + ReplaceAll(y, pat, rep)
    decreases |x|, 1
  {
    if |pat| <= |x| {
      SameStartMatch(x, y, pat);
    }
    assert !MatchesAt(x + y, pat, 0);
    ReplaceAllAppendRest(x, y, pat, rep, 1);
    ReplaceAllCopiesHead(x, pat, rep);
    ReplaceAllCopiesHead(x + y, pat, rep);
    ConsAppend(x[0], x[1..], y, ReplaceAll(x[1..], pat, rep), ReplaceAll(y, pat, rep));
  }

  /** The sequence bookkeeping of `ReplaceAllAppendSkip`'s last step. */
  lemma ConsAppend(c: char, x: string, y: string, rx: string, ry: string)
    ensures ([c] + x + y)[0] == c && ([c] + x + y)[1..] == x + y
    ensures [c] + (rx + ry) == ([c] + rx) + ry
    ensures ([c] + x)[0] == c && ([c] + x)[1..] == x
  {
    assert ([c] + x + y)[1..] == x + y;
    assert ([c] + x)[1..] == x;
  }

  /** Without a match at its front, the first character of the text is copied. */
  lemma ReplaceAllCopiesHead(x: string, pat: seq<Tok>, rep: string)
    requires |pat| > 0 && x != []
    requires |x| < |pat| || !MatchesAt(x, pat, 0)
    ensures ReplaceAll(x, pat, rep) == [x[0]] + ReplaceAll(x[1..], pat, rep)
  {
    if |x| < |pat| {
      assert [x[0]] + x[1..] == x;
    }
  }

  /** After dropping the first `d` characters of `x`, the boundary condition of
      `ReplaceAllAppend` still holds, so the rest is replaced part by part. */
  lemma {:induction false} ReplaceAllAppendRest(x: string, y: string, pat: seq<Tok>, rep: string, d: nat)
    requires |pat| > 0 && 0 < d <= |x|
    requires forall i :: |x| - |pat| < i < |x| ==> !MatchesAt(x + y, pat, i)
    ensures (x + y)[d..] == x[d..] + y
    ensures ReplaceAll((x + y)[d..], pat, rep) == ReplaceAll(x[d..], pat, rep) + ReplaceAll(y, pat, rep)
    decreases |x|, 0
  {
    var s := x + y;
    assert s[d..] == x[d..] + y;
    forall i | |x[d..]| - |pat| < i < |x[d..]|
      ensures !MatchesAt(x[d..] + y, pat, i)
    {
      MatchesShift(s, pat, d, i);
    }
    ReplaceAllAppend(x[d..], y, pat, rep);
  }

  /** A match at the start of `x + y` lies within `x` when `x` is long enough. */
  lemma SameStartMatch(x: string, y: string, pat: seq<Tok>)
    requires |pat| <= |x|
    ensures MatchesAt(x + y, pat, 0) <==> MatchesAt(x, pat, 0)
  {
    if MatchesAt(x + y, pat, 0) {
      forall k | 0 <= k < |pat| ensures TokMatches(pat[k], x[k]) {
        assert (x + y)[k] == x[k];
      }
    }
  }

  /** A single-line pattern is replaced line by line: a newline is copied and the
      text on either side of it is rewritten independently. */
  lemma ReplaceAllByLine(line: string, rest: string, pat: seq<Tok>, rep: string)
    requires |pat| > 0 && SingleLine(pat)
    ensures ReplaceAll(line + "\n" + rest, pat, rep) == ReplaceAll(line, pat, rep) + "\n" + ReplaceAll(rest, pat, rep)
  {
    var nl := line + "\n";
    forall i | |nl| - |pat| < i < |nl|
      ensures !MatchesAt(nl + rest, pat, i)
    {
      assert (nl + rest)[i + (|line| - i)] == '\n';
      assert !TokMatches(pat[|line| - i], '\n');
    }
    ReplaceAllAppend(nl, rest, pat, rep);
    forall i | |line| - |pat| < i < |line|
      ensures !MatchesAt(line + "\n", pat, i)
    {
      assert (line + "\n")[i + (|line| - i)] == '\n';
      assert !TokMatches(pat[|line| - i], '\n');
    }
    ReplaceAllAppend(line, "\n", pat, rep);
    forall i ensures !MatchesAt("\n", pat, i) {
      assert 0 <= i < 1 ==> "\n"[i] == '\n';
      assert !TokMatches(pat[0], '\n');
    }
    ReplaceAllNoMatch("\n", pat, rep);
  }

  // ---------------------------------------------------------------------------
  // Regexp.FindSubmatch for `head(.+)tail`

  /** Where a match starts and how long its group is. */
  datatype Capture = Capture(start: nat, len: nat)

  /** `head(.+)tail` matches at `i` with a group of `n` characters. */
  ghost predicate CaptureAt(s: string, head: seq<Tok>, tail: seq<Tok>, i: int, n: int) {
    MatchesAt(s, head, i) && 1 <= n && MatchesAt(s, tail, i + |head| + n) &&
    forall k :: i + |head| <= k < i + |head| + n ==> s[k] != '\n'
  }

  ghost predicate StartsMatch(s: string, head: seq<Tok>, tail: seq<Tok>, i: int) {
    exists n :: CaptureAt(s, head, tail, i, n)
  }

  /** The match Go reports: the leftmost start, and at that start the longest group. */
  ghost predicate LeftmostGreedy(s: string, head: seq<Tok>, tail: seq<Tok>, i: int, n: int) {
    CaptureAt(s, head, tail, i, n) &&
    (forall j :: 0 <= j < i ==> !StartsMatch(s, head, tail, j)) &&
    (forall m :: CaptureAt(s, head, tail, i, m) ==> m <= n)
  }

  /** `g` is the first submatch Go reports for `head(.+)tail` in `s`. */
  ghost predicate IsSubmatch(s: string, head: seq<Tok>, tail: seq<Tok>, g: string) {
    exists i, n :: LeftmostGreedy(s, head, tail, i, n) && g == s[i + |head|..i + |head| + n]
  }

  /** The number of characters from `p` up to the next newline or the end. */
  function LineRemainder(s: string, p: nat): (r: nat)
    requires p <= |s|
    ensures p + r <= |s|
    ensures forall k :: p <= k < p + r ==> s[k] != '\n'
    ensures p + r == |s| || s[p + r] == '\n'
    decreases |s| - p
  {
    if p == |s| || s[p] == '\n' then 0 else 1 + LineRemainder(s, p + 1)
  }

  /** The largest `m` in 1..n such that `tail` matches at `p + m`, or 0 if there is none. */
  function LastTailWithin(s: string, tail: seq<Tok>, p: nat, n: nat): (m: nat)
    ensures m <= n
    ensures m > 0 ==> MatchesAt(s, tail, p + m)
    ensures forall q :: p + m < q <= p + n ==> !MatchesAt(s, tail, q)
    decreases n
  {
    if n == 0 then 0
    else if MatchesAt(s, tail, p + n) then n
    else LastTailWithin(s, tail, p, n - 1)
  }

  /** A group never runs past the end of its line. */
  lemma CaptureWithinLine(s: string, head: seq<Tok>, tail: seq<Tok>, i: int, m: int)
    ensures CaptureAt(s, head, tail, i, m) ==>
              i + |head| <= |s| && m <= LineRemainder(s, i + |head|) && MatchesAt(s, tail, i + |head| + m)
  {
    if CaptureAt(s, head, tail, i, m) {
      var r := LineRemainder(s, i + |head|);
    }
  }

  /** A match of a single-line tail ends before the end `e` of the group's line. */
  lemma CaptureBeforeLineEnd(s: string, head: seq<Tok>, tail: seq<Tok>, i: int, m: int, e: int)
    requires CaptureAt(s, head, tail, i, m) && SingleLine(tail)
    requires i + |head| <= e && (e == |s| || (0 <= e < |s| && s[e] == '\n'))
    ensures i + |head| + m + |tail| <= e
  {
    var p := i + |head|;
    forall j | p <= j < p + m + |tail|
      ensures s[j] != '\n'
    {
      if p + m <= j {
        assert TokMatches(tail[j - (p + m)], s[p + m + (j - (p + m))]);
      }
    }
  }

  lemma LeftmostGreedyUnique(s: string, head: seq<Tok>, tail: seq<Tok>, i: int, n: int, i': int, n': int)
    requires LeftmostGreedy(s, head, tail, i, n) && LeftmostGreedy(s, head, tail, i', n')
    ensures i == i' && n == n'
  {
    assert StartsMatch(s, head, tail, i);
    assert StartsMatch(s, head, tail, i');
  }

  function FindSubmatchFrom(s: string, head: seq<Tok>, tail: seq<Tok>, i: nat): (r: Option<Capture>)
    requires i <= |s|
    requires forall j :: 0 <= j < i ==> !StartsMatch(s, head, tail, j)
    ensures r.None? ==> forall j :: !StartsMatch(s, head, tail, j)
    ensures r.Some? ==> LeftmostGreedy(s, head, tail, r.value.start, r.value.len)
    decreases |s| - i
  {
    if MatchesAt(s, head, i) && LastTailWithin(s, tail, i + |head|, LineRemainder(s, i + |head|)) > 0 then
      var p := i + |head|;
      var n := LastTailWithin(s, tail, p, LineRemainder(s, p));
      assert CaptureAt(s, head, tail, i, n);
      assert forall m :: CaptureAt(s, head, tail, i, m) ==> m <= n by {
        forall m | CaptureAt(s, head, tail, i, m) ensures m <= n {
          CaptureWithinLine(s, head, tail, i, m);
        }
      }
      Some(Capture(i, n))
    else
      assert !StartsMatch(s, head, tail, i) by {
        forall m ensures !CaptureAt(s, head, tail, i, m) {
          CaptureWithinLine(s, head, tail, i, m);
        }
      }
      if i == |s| then None else FindSubmatchFrom(s, head, tail, i + 1)
  }

  /** Go's `re.FindSubmatch(s)` for `re` = `head(.+)tail`: None when nothing matches. */
  function FindSubmatch(s: string, head: seq<Tok>, tail: seq<Tok>): (r: Option<Capture>)
    ensures r.None? <==> forall j :: !StartsMatch(s, head, tail, j)
    ensures r.Some? ==> LeftmostGreedy(s, head, tail, r.value.start, r.value.len)
  {
    var r := FindSubmatchFrom(s, head, tail, 0);
    assert r.Some? ==> StartsMatch(s, head, tail, r.value.start);
    r
  }

  /** Once the reported match is known, FindSubmatch returns exactly it. */
  lemma FindSubmatchIs(s: string, head: seq<Tok>, tail: seq<Tok>, i: int, n: int)
    requires LeftmostGreedy(s, head, tail, i, n)
    ensures FindSubmatch(s, head, tail) == Some(Capture(i, n))
  {
    var r := FindSubmatch(s, head, tail);
    assert StartsMatch(s, head, tail, i);
    LeftmostGreedyUnique(s, head, tail, i, n, r.value.start, r.value.len);
  }

  /** A match that no earlier match precedes, and whose tail ends its line, is the
      one FindSubmatch returns. */
  lemma FindSubmatchAtLineEnd(s: string, head: seq<Tok>, tail: seq<Tok>, i: int, n: int)
    requires CaptureAt(s, head, tail, i, n) && SingleLine(tail)
    requires forall j :: 0 <= j < i ==> !StartsMatch(s, head, tail, j)
    requires var e := i + |head| + n + |tail|; e == |s| || (e < |s| && s[e] == '\n')
    ensures FindSubmatch(s, head, tail) == Some(Capture(i, n))
  {
    forall m | CaptureAt(s, head, tail, i, m) ensures m <= n {
      CaptureBeforeLineEnd(s, head, tail, i, m, i + |head| + n + |tail|);
    }
    FindSubmatchIs(s, head, tail, i, n);
  }

  // ---------------------------------------------------------------------------
  // strings.Contains

  function ContainsFrom(s: string, pat: seq<Tok>, i: nat): (b: bool)
    ensures b <==> exists j :: i <= j && MatchesAt(s, pat, j)
    decreases |s| - i
  {
    if i + |pat| > |s| then false
    else MatchesAt(s, pat, i) || ContainsFrom(s, pat, i + 1)
  }

  /** `strings.Contains(s, sub)`. */
  function Contains(s: string, sub: string): (b: bool)
    ensures b <==> Occurs(s, Literal(sub))
  {
    ContainsFrom(s, Literal(sub), 0)
  }
}
