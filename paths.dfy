/** The three pieces of path handling the pipeline relies on, on POSIX:
    `os.path.splitext`, `pathlib.PurePath.name`/`.suffix` and `os.path.join`
    with two arguments. Paths are plain strings. */
module Paths {
  import opened Text

  const SEP: char := '/'
  const EXTSEP: char := '.'

  /** `str.rfind` for one character: the last index holding `c`, or -1. */
  function RFind(s: string, c: char): (r: int)
    ensures -1 <= r < |s|
    ensures r >= 0 ==> s[r] == c
    ensures forall i :: r < i < |s| ==> s[i] != c
    decreases |s|
  {
    if s == [] then -1
    else if s[|s| - 1] == c then |s| - 1
    else RFind(s[..|s| - 1], c)
  }

  /** Characters other than `c` appended after `a` do not move its last `c`. */
  lemma {:induction false} RFindPastSuffix(a: string, b: string, c: char)
    requires c !in b
    ensures RFind(a + b, c) == RFind(a, c)
    decreases |b|
  {
    if b == [] {
      assert a + b == a;
    } else {
      assert (a + b)[..|a + b| - 1] == a + b[..|b| - 1];
      RFindPastSuffix(a, b[..|b| - 1], c);
    }
  }

  /** Some character of `p[lo..hi]` is not a dot. */
  predicate HasNonDot(p: string, lo: int, hi: int)
    requires 0 <= lo && hi <= |p|
  {
    exists i :: lo <= i < hi && p[i] != EXTSEP
  }

  /** `os.path.splitext(p)` (posixpath): the extension starts at the last dot
      of the last component, provided that component has something other
      than dots before it; leading dots belong to the root. */
  function SplitExt(p: string): (r: (string, string))
    ensures r.0 + r.1 == p
    ensures r.1 == [] || (r.1[0] == EXTSEP && EXTSEP !in r.1[1..] && SEP !in r.1)
  {
    var sepIndex := RFind(p, SEP);
    var dotIndex := RFind(p, EXTSEP);
    if dotIndex > sepIndex && HasNonDot(p, sepIndex + 1, dotIndex) then
      assert p[..dotIndex] + p[dotIndex..] == p;
      (p[..dotIndex], p[dotIndex..])
    else
      (p, [])
  }

  /** `PurePosixPath(p).name`: the text after the last separator. */
  function Name(p: string): (r: string)
    ensures EndsWith(p, r) && SEP !in r
  {
    p[RFind(p, SEP) + 1..]
  }

  /** `PurePosixPath(p).suffix`: the final component's last dot and what
      follows it, when the dot is neither the first nor the last character
      of the component. */
  function Suffix(p: string): (r: string)
    ensures r == [] || (|r| >= 2 && r[0] == EXTSEP)
  {
    var name := Name(p);
    var i := RFind(name, EXTSEP);
    if 0 < i < |name| - 1 then name[i..] else []
  }

  /** The suffix ends the path, holds a single dot and no separator. */
  lemma SuffixShape(p: string)
    ensures EndsWith(p, Suffix(p))
    ensures Suffix(p) == [] || (EXTSEP !in Suffix(p)[1..] && SEP !in Suffix(p))
  {
    var name := Name(p);
    var i := RFind(name, EXTSEP);
    if 0 < i < |name| - 1 {
      assert p[|p| - |name[i..]|..] == name[i..];
    }
  }

  /** `os.path.join(a, b)` (posixpath, two arguments). */
  function Join(a: string, b: string): (r: string)
    ensures b != [] && b[0] == SEP ==> r == b
    ensures !(b != [] && b[0] == SEP) ==> StartsWith(r, a) && EndsWith(r, b) && |r| <= |a| + 1 + |b|
  {
    if b != [] && b[0] == SEP then b
    else if a == [] || a[|a| - 1] == SEP then a + b
    else a + [SEP] + b
  }
}
