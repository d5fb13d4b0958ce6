/** Strings as Python sees them in the pipeline: whitespace, `str.strip`,
    substring search, ASCII lower-casing, and the subsequence relation used
    to say that a rewrite only deletes characters. */
module Text {
  import opened Wrappers

  /** Python's `str.isspace()` on one character; CPython's `\s` in a str
      pattern matches exactly the same characters. */
  predicate IsSpace(c: char) {
    var n := c as int;
    (0x09 <= n <= 0x0D) || (0x1C <= n <= 0x20) || n == 0x85 || n == 0xA0 || n == 0x1680
    || (0x2000 <= n <= 0x200A) || n == 0x2028 || n == 0x2029 || n == 0x202F
    || n == 0x205F || n == 0x3000
  }

  predicate AllSpace(s: string) {
    forall i :: 0 <= i < |s| ==> IsSpace(s[i])
  }

  lemma AllSpaceAppend(a: string, b: string)
    requires AllSpace(a) && AllSpace(b)
    ensures AllSpace(a + b)
  {
  }

  /** No whitespace at either end: what `str.strip()` returns. */
  predicate IsStripped(s: string) {
    s == [] || (!IsSpace(s[0]) && !IsSpace(s[|s| - 1]))
  }

  /** The end of the run of whitespace that starts at `i`. */
  function SpaceRunEnd(s: string, i: nat): (k: nat)
    requires i <= |s|
    ensures i <= k <= |s|
    ensures k == |s| || !IsSpace(s[k])
    decreases |s| - i
  {
    if i < |s| && IsSpace(s[i]) then SpaceRunEnd(s, i + 1) else i
  }

  /** The start of the run of whitespace that ends at `i`. */
  function SpaceRunStart(s: string, i: nat): (k: nat)
    requires i <= |s|
    ensures k <= i
    ensures k == 0 || !IsSpace(s[k - 1])
  {
    if 0 < i && IsSpace(s[i - 1]) then SpaceRunStart(s, i - 1) else i
  }

  /** `str.lstrip()`: drop the leading whitespace. */
  function TrimStart(s: string): (r: string)
    ensures |r| <= |s|
    ensures r == [] || !IsSpace(r[0])
  {
    s[SpaceRunEnd(s, 0)..]
  }

  /** `str.rstrip()`: drop the trailing whitespace. */
  function TrimEnd(s: string): (r: string)
    ensures |r| <= |s|
    ensures r == [] || !IsSpace(r[|r| - 1])
  {
    s[..SpaceRunStart(s, |s|)]
  }

  /** `str.strip()` with no argument. */
  function Strip(s: string): (r: string)
    ensures IsStripped(r)
    ensures |r| <= |s|
  {
    TrimEnd(TrimStart(s))
  }

  lemma {:induction false} SpaceRunEndOfPadded(w: string, y: string, i: nat)
    requires i <= |w| && AllSpace(w)
    requires y == [] || !IsSpace(y[0])
    ensures SpaceRunEnd(w + y, i) == |w|
    decreases |w| - i
  {
    if i < |w| {
      assert (w + y)[i] == w[i];
      SpaceRunEndOfPadded(w, y, i + 1);
    } else if y != [] {
      assert (w + y)[|w|] == y[0];
    }
  }

  lemma {:induction false} SpaceRunStartOfPadded(y: string, w: string, i: nat)
    requires |y| <= i <= |y| + |w| && AllSpace(w)
    requires y == [] || !IsSpace(y[|y| - 1])
    ensures SpaceRunStart(y + w, i) == |y|
    decreases i
  {
    if |y| < i {
      assert (y + w)[i - 1] == w[i - 1 - |y|];
      SpaceRunStartOfPadded(y, w, i - 1);
    } else if y != [] {
      assert (y + w)[|y| - 1] == y[|y| - 1];
    }
  }

  lemma TrimStartOfPadded(w: string, y: string)
    requires AllSpace(w)
    requires y == [] || !IsSpace(y[0])
    ensures TrimStart(w + y) == y
  {
    SpaceRunEndOfPadded(w, y, 0);
    assert (w + y)[|w|..] == y;
  }

  lemma TrimEndOfPadded(y: string, w: string)
    requires AllSpace(w)
    requires y == [] || !IsSpace(y[|y| - 1])
    ensures TrimEnd(y + w) == y
  {
    SpaceRunStartOfPadded(y, w, |y + w|);
    assert (y + w)[..|y|] == y;
  }

  /** `strip` removes exactly the whitespace around a stripped core, and
      nothing of the core itself. */
  lemma StripOfPadded(w1: string, x: string, w2: string)
    requires AllSpace(w1) && AllSpace(w2) && IsStripped(x)
    ensures Strip(w1 + x + w2) == x
  {
    if x == [] {
      assert w1 + x + w2 == w1 + w2;
      assert AllSpace(w1 + w2);
      TrimStartOfPadded(w1 + w2, []);
      assert w1 + w2 + [] == w1 + w2;
      TrimEndOfPadded([], []);
    } else {
      assert w1 + x + w2 == w1 + (x + w2);
      TrimStartOfPadded(w1, x + w2);
      TrimEndOfPadded(x, w2);
    }
  }

  /** A stripped string is left as it is. */
  lemma StripStripped(x: string)
    requires IsStripped(x)
    ensures Strip(x) == x
  {
    StripOfPadded([], x, []);
    assert [] + x + [] == x;
  }

  /** Taking the head off a concatenation with a non-empty left part. */
  lemma HeadTail<T>(s: seq<T>)
    requires s != []
    ensures [s[0]] + s[1..] == s
  {
  }

  lemma SplitAt<T>(s: seq<T>, e: nat)
    requires e <= |s|
    ensures s[..e] + s[e..] == s
  {
  }

  lemma Regroup<T>(u: seq<T>, x: seq<T>, v: seq<T>, b: seq<T>, w: seq<T>)
    ensures u + x + v + b + w == u + (x + (v + b + w))
  {
  }

  lemma Regroup3<T>(u: seq<T>, x: seq<T>, v: seq<T>, w: seq<T>)
    ensures u + x + v + w == u + (x + v + w)
  {
  }

  lemma JoinAcrossEmpty<T>(u: seq<T>, a: seq<T>, b: seq<T>, w: seq<T>)
    ensures u + a + [] + b + w == u + (a + b) + w
  {
  }

  lemma AppendEmpty<T>(x: seq<T>)
    ensures x + [] == x && [] + x == x
  {
  }

  lemma ConsSplit3<T>(x: seq<T>, y: seq<T>, z: seq<T>)
    requires x != []
    ensures (x + y + z)[1..] == x[1..] + y + z
  {
  }

  lemma ConsSplit<T>(x: seq<T>, y: seq<T>)
    requires x != []
    ensures (x + y)[1..] == x[1..] + y
    ensures [x[0]] + (x[1..] + y) == x + y
  {
  }

  /* ---------------- substring search ---------------- */

  predicate OccursAt(s: string, pat: string, i: nat) {
    i + |pat| <= |s| && s[i..i + |pat|] == pat
  }

  predicate StartsWith(s: string, prefix: string) {
    OccursAt(s, prefix, 0)
  }

  predicate EndsWith(s: string, suffix: string) {
    |suffix| <= |s| && s[|s| - |suffix|..] == suffix
  }

  lemma EndsWithTail(s: string, suffix: string)
    requires |suffix| < |s|
    ensures EndsWith(s[1..], suffix) == EndsWith(s, suffix)
  {
    assert s[1..][|s| - 1 - |suffix|..] == s[|s| - |suffix|..];
  }

  lemma OccursAtTail(s: string, pat: string, i: nat)
    requires s != []
    ensures OccursAt(s, pat, i + 1) == OccursAt(s[1..], pat, i)
  {
    if i + 1 + |pat| <= |s| {
      assert s[1..][i..i + |pat|] == s[i + 1..i + 1 + |pat|];
    }
  }

  /** Searching a suffix is searching the whole string further on. */
  lemma OccursAtShift(s: string, pat: string, k: nat, i: nat)
    requires k <= |s|
    ensures OccursAt(s[k..], pat, i) == OccursAt(s, pat, i + k)
  {
    if i + k + |pat| <= |s| {
      assert s[k..][i..i + |pat|] == s[i + k..i + k + |pat|];
    }
  }

  /** A pattern absent from `s` is absent from its tail. */
  lemma NotFoundInTail(s: string, pat: string)
    requires s != [] && IndexOf(s, pat) == None
    ensures IndexOf(s[1..], pat) == None
  {
    forall i: nat ensures !OccursAt(s[1..], pat, i) {
      OccursAtTail(s, pat, i);
    }
  }

  /** A pattern with a character that `s` lacks does not occur in `s`. */
  lemma AbsentChar(s: string, pat: string, k: nat)
    requires k < |pat| && pat[k] !in s
    ensures IndexOf(s, pat) == None
  {
  }

  /** `str.find`: the leftmost occurrence of `pat` in `s`, if there is one. */
  function IndexOf(s: string, pat: string): (r: Option<nat>)
    ensures r.Some? ==> OccursAt(s, pat, r.value)
    ensures r.Some? ==> forall i: nat :: i < r.value ==> !OccursAt(s, pat, i)
    ensures r.None? ==> forall i: nat :: !OccursAt(s, pat, i)
    decreases |s|
  {
    if |s| < |pat| then None
    else if OccursAt(s, pat, 0) then Some(0)
    else
      var rest := IndexOf(s[1..], pat);
      assert forall i: nat :: 1 <= i ==> OccursAt(s, pat, i) == OccursAt(s[1..], pat, i - 1) by {
        forall i: nat | 1 <= i ensures OccursAt(s, pat, i) == OccursAt(s[1..], pat, i - 1) {
          OccursAtTail(s, pat, i - 1);
        }
      }
      match rest
      case Some(j) => Some(j + 1)
      case None => None
  }

  /* ---------------- ASCII lower-casing ---------------- */

  function LowerChar(c: char): char {
    if 'A' <= c <= 'Z' then (c as int + 32) as char else c
  }

  /** `str.lower()` restricted to ASCII letters. */
  function AsciiLower(s: string): (r: string)
    ensures |r| == |s|
    ensures forall i :: 0 <= i < |s| ==> r[i] == LowerChar(s[i])
  {
    seq(|s|, i requires 0 <= i < |s| => LowerChar(s[i]))
  }

  /* ---------------- subsequences ---------------- */

  /** `a` is obtained from `b` by deleting elements, keeping the order of the rest. */
  predicate IsSubseq<T(==)>(a: seq<T>, b: seq<T>)
    decreases |b|
  {
    a == [] || (b != [] && ((a[0] == b[0] && IsSubseq(a[1..], b[1..])) || IsSubseq(a, b[1..])))
  }

  lemma {:induction false} SubseqLength<T>(a: seq<T>, b: seq<T>)
    requires IsSubseq(a, b)
    ensures |a| <= |b|
    decreases |b|
  {
    if a != [] {
      if a[0] == b[0] && IsSubseq(a[1..], b[1..]) {
        SubseqLength(a[1..], b[1..]);
      } else {
        SubseqLength(a, b[1..]);
      }
    }
  }

  lemma {:induction false} SubseqRefl<T>(a: seq<T>)
    ensures IsSubseq(a, a)
    decreases |a|
  {
    if a != [] {
      SubseqRefl(a[1..]);
    }
  }

  /** Deleting a whole prefix of the longer sequence keeps the relation. */
  lemma {:induction false} SubseqOfSuffix<T>(a: seq<T>, p: seq<T>, b: seq<T>)
    requires IsSubseq(a, b)
    ensures IsSubseq(a, p + b)
    decreases |p|
  {
    if p != [] {
      assert (p + b)[1..] == p[1..] + b;
      SubseqOfSuffix(a, p[1..], b);
    } else {
      assert p + b == b;
    }
  }

  /** Appending to the longer sequence keeps the relation. */
  lemma {:induction false} SubseqOfPrefix<T>(a: seq<T>, b: seq<T>, q: seq<T>)
    requires IsSubseq(a, b)
    ensures IsSubseq(a, b + q)
    decreases |b|
  {
    if a != [] {
      assert (b + q)[0] == b[0] && (b + q)[1..] == b[1..] + q;
      if a[0] == b[0] && IsSubseq(a[1..], b[1..]) {
        SubseqOfPrefix(a[1..], b[1..], q);
      } else {
        SubseqOfPrefix(a, b[1..], q);
      }
    }
  }

  lemma SubseqCons<T>(x: T, a: seq<T>, b: seq<T>)
    requires IsSubseq(a, b)
    ensures IsSubseq([x] + a, [x] + b)
  {
    assert ([x] + a)[1..] == a && ([x] + b)[1..] == b;
  }

  lemma {:induction false} SubseqTrans<T>(a: seq<T>, b: seq<T>, c: seq<T>)
    requires IsSubseq(a, b) && IsSubseq(b, c)
    ensures IsSubseq(a, c)
    decreases |c|
  {
    if a != [] {
      if IsSubseq(b, c[1..]) {
        SubseqTrans(a, b, c[1..]);
      } else if a[0] == b[0] && IsSubseq(a[1..], b[1..]) {
        SubseqTrans(a[1..], b[1..], c[1..]);
      } else {
        SubseqTrans(a, b[1..], c[1..]);
      }
    }
  }

  /** Every infix, in particular what `strip` keeps, is a subsequence. */
  lemma SubseqSlice<T>(s: seq<T>, i: nat, j: nat)
    requires i <= j <= |s|
    ensures IsSubseq(s[i..j], s)
  {
    SubseqRefl(s[i..j]);
    SubseqOfPrefix(s[i..j], s[i..j], s[j..]);
    SubseqOfSuffix(s[i..j], s[..i], s[i..j] + s[j..]);
    SplitAt3(s, i, j);
  }

  lemma SplitAt3<T>(s: seq<T>, i: nat, j: nat)
    requires i <= j <= |s|
    ensures s[..i] + (s[i..j] + s[j..]) == s
  {
  }

  lemma StripDeletes(s: string)
    ensures IsSubseq(Strip(s), s)
  {
    var t := TrimStart(s);
    var k := SpaceRunStart(t, |t|);
    SubseqSlice(t, 0, k);
    assert t[0..k] == Strip(s);
    SubseqSlice(s, SpaceRunEnd(s, 0), |s|);
    assert s[SpaceRunEnd(s, 0)..|s|] == t;
    SubseqTrans(Strip(s), t, s);
  }
}
