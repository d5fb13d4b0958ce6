/** The text rewrite `_post_fn` applies to the reasoning model's reply
    before it becomes the listing text: drop every `<think>...</think>`
    block, strip, drop a leading "```json" fence and a trailing "```" fence,
    strip again. Both substitutions follow Python's `re.sub`: the scan goes
    left to right, each match is the leftmost one from the current position,
    matches do not overlap, and text between matches is kept. */
module Sanitiser {
  import opened Wrappers
  import opened Text

  const THINK_OPEN := "<think>"
  const THINK_CLOSE := "</think>"
  const FENCE := "```"
  const JSON_FENCE := "```json"

  /* ---------- re.sub(r"<think>.*?</think>", "", s, flags=re.DOTALL) ---------- */

  /** The end of a match of `<think>.*?</think>` starting at s[0], if any.
      Under DOTALL the lazy `.*?` crosses newlines and stops at the first
      closing tag after the opening one. */
  function ThinkMatch(s: string): (r: Option<nat>)
    ensures r.Some? ==> StartsWith(s, THINK_OPEN) && |THINK_OPEN| + |THINK_CLOSE| <= r.value <= |s|
  {
    if StartsWith(s, THINK_OPEN) then
      match IndexOf(s[|THINK_OPEN|..], THINK_CLOSE)
      case Some(j) => Some(|THINK_OPEN| + j + |THINK_CLOSE|)
      case None => None
    else None
  }

  /** The match ends with the first closing tag after the opening one, and
      there is no match exactly when the opening tag is missing or no
      closing tag follows it. */
  lemma ThinkMatchIsLazy(s: string)
    ensures ThinkMatch(s).Some? ==> OccursAt(s, THINK_CLOSE, ThinkMatch(s).value - |THINK_CLOSE|)
    ensures ThinkMatch(s).Some? ==>
      forall i: nat :: |THINK_OPEN| <= i < ThinkMatch(s).value - |THINK_CLOSE| ==> !OccursAt(s, THINK_CLOSE, i)
    ensures ThinkMatch(s).None? ==>
      !StartsWith(s, THINK_OPEN) || forall i: nat :: |THINK_OPEN| <= i ==> !OccursAt(s, THINK_CLOSE, i)
  {
    if StartsWith(s, THINK_OPEN) {
      var n := |THINK_OPEN|;
      forall i: nat | n <= i ensures OccursAt(s[n..], THINK_CLOSE, i - n) == OccursAt(s, THINK_CLOSE, i) {
        OccursAtShift(s, THINK_CLOSE, n, i - n);
      }
    }
  }

  /** `re.sub(r"<think>.*?</think>", "", s, flags=re.DOTALL)`. */
  function RemoveThink(s: string): string
    decreases |s|
  {
    if s == [] then []
    else
      match ThinkMatch(s)
      case Some(e) => RemoveThink(s[e..])
      case None => [s[0]] + RemoveThink(s[1..])
  }

  /** A reply with no closing tag anywhere passes block removal unchanged,
      even when it opens a block: an unclosed block is not removed. */
  lemma {:induction false} RemoveThinkWithoutClose(s: string)
    requires IndexOf(s, THINK_CLOSE) == None
    ensures RemoveThink(s) == s
    decreases |s|
  {
    if s != [] {
      ThinkMatchIsLazy(s);
      NotFoundInTail(s, THINK_CLOSE);
      RemoveThinkWithoutClose(s[1..]);
      HeadTail(s);
    }
  }

  /* ---------- re.sub(r"^```json\s*|\s*```$", "", s) ---------- */

  /** How many whitespace characters `s` starts with (greedy `\s*`). */
  function SpaceRun(s: string): (n: nat)
    ensures n <= |s|
    ensures n < |s| ==> !IsSpace(s[n])
    decreases |s|
  {
    if s != [] && IsSpace(s[0]) then 1 + SpaceRun(s[1..]) else 0
  }

  /** Everything the run covers is whitespace. */
  lemma {:induction false} SpaceRunSpaces(s: string)
    ensures AllSpace(s[..SpaceRun(s)])
    decreases |s|
  {
    if s != [] && IsSpace(s[0]) {
      SpaceRunSpaces(s[1..]);
      assert s[..SpaceRun(s)] == [s[0]] + s[1..][..SpaceRun(s[1..])];
    }
  }

  lemma {:induction false} SpaceRunOfPadded(w: string, y: string)
    requires AllSpace(w)
    requires y == [] || !IsSpace(y[0])
    ensures SpaceRun(w + y) == |w|
    decreases |w|
  {
    if w == [] {
      assert w + y == y;
    } else {
      assert (w + y)[1..] == w[1..] + y;
      SpaceRunOfPadded(w[1..], y);
    }
  }

  lemma {:induction false} SpaceRunStops(s: string, i: nat)
    requires i < |s| && !IsSpace(s[i])
    ensures SpaceRun(s) <= i
    decreases |s|
  {
    if s != [] && IsSpace(s[0]) {
      SpaceRunStops(s[1..], i - 1);
    }
  }

  /** Where `$` matches without MULTILINE: at the end of the string, or just
      before a newline that ends it. */
  predicate EndAnchorAt(s: string, p: nat) {
    p == |s| || (p + 1 == |s| && s[p] == '\n')
  }

  /** The end of a match of the first alternative, "^```json\s*"; only
      tried at the start of the string. */
  function OpenerMatch(s: string): (r: Option<nat>)
    ensures r.Some? <==> StartsWith(s, JSON_FENCE)
    ensures r.Some? ==> |JSON_FENCE| <= r.value <= |s| && (r.value < |s| ==> !IsSpace(s[r.value]))
  {
    if StartsWith(s, JSON_FENCE) then Some(|JSON_FENCE| + SpaceRun(s[|JSON_FENCE|..])) else None
  }

  /** What the opener match consumes after "```json" is whitespace. */
  lemma OpenerMatchSpaces(s: string)
    requires OpenerMatch(s).Some?
    ensures AllSpace(s[|JSON_FENCE|..OpenerMatch(s).value])
  {
    var n := |JSON_FENCE|;
    SpaceRunSpaces(s[n..]);
    assert s[n..][..SpaceRun(s[n..])] == s[n..OpenerMatch(s).value];
  }

  /** The end of a match of the second alternative, "\s*```$", starting at s[0]. */
  function CloserMatch(s: string): (r: Option<nat>)
    ensures r.Some? ==> |FENCE| <= r.value <= |s| && EndAnchorAt(s, r.value)
    ensures r.Some? ==> OccursAt(s, FENCE, r.value - |FENCE|)
  {
    var k := SpaceRun(s);
    if OccursAt(s, FENCE, k) && EndAnchorAt(s, k + |FENCE|) then Some(k + |FENCE|) else None
  }

  /** What the closer match consumes before the fence is whitespace. */
  lemma CloserMatchSpaces(s: string)
    requires CloserMatch(s).Some?
    ensures AllSpace(s[..CloserMatch(s).value - |FENCE|])
  {
    SpaceRunSpaces(s);
  }

  /** `re.sub(r"^```json\s*|\s*```$", "", s)`; `atStart` says whether the
      scan is at position 0, the only place `^` matches. At each position
      the first alternative is tried before the second; where neither
      matches, one character is kept and the scan moves on. */
  function FenceSub(s: string, atStart: bool): string
    decreases |s|
  {
    if atStart && OpenerMatch(s).Some? then FenceSub(s[OpenerMatch(s).value..], false)
    else if CloserMatch(s).Some? then FenceSub(s[CloserMatch(s).value..], false)
    else if s == [] then []
    else [s[0]] + FenceSub(s[1..], false)
  }

  /** A closing match reaches the end of the text: the text ends in the
      fence, or in the newline that `$` may stand before. */
  lemma CloserMatchAtEnd(s: string)
    ensures CloserMatch(s).Some? ==> EndsWith(s, FENCE) || (s != [] && IsSpace(s[|s| - 1]))
  {
    var k := SpaceRun(s);
    if OccursAt(s, FENCE, k) && k + |FENCE| == |s| {
      assert s[|s| - |FENCE|..] == s[k..k + |FENCE|];
    }
  }

  /** One step of the fence scan past position 0 where no closing fence
      starts: the character is kept. */
  lemma FenceSubKeeps(s: string)
    requires s != [] && CloserMatch(s) == None
    ensures FenceSub(s, false) == [s[0]] + FenceSub(s[1..], false)
  {
  }

  /** One step of the think-block scan where no block starts: the character
      is kept. */
  lemma RemoveThinkKeeps(s: string)
    requires s != [] && !StartsWith(s, THINK_OPEN)
    ensures RemoveThink(s) == [s[0]] + RemoveThink(s[1..])
  {
  }

  /** The text `_post_fn` stores under "post". */
  function Sanitise(raw: string): (r: string)
    ensures IsStripped(r)
  {
    Strip(FenceSub(Strip(RemoveThink(raw)), true))
  }

  /* ---------- sanitising only deletes ---------- */

  lemma {:induction false} RemoveThinkDeletes(s: string)
    ensures IsSubseq(RemoveThink(s), s)
    decreases |s|
  {
    if s != [] {
      match ThinkMatch(s)
      case Some(e) =>
        RemoveThinkDeletes(s[e..]);
        SubseqOfSuffix(RemoveThink(s[e..]), s[..e], s[e..]);
        SplitAt(s, e);
      case None =>
        RemoveThinkDeletes(s[1..]);
        SubseqCons(s[0], RemoveThink(s[1..]), s[1..]);
        HeadTail(s);
    }
  }

  lemma {:induction false} FenceSubDeletes(s: string, atStart: bool)
    ensures IsSubseq(FenceSub(s, atStart), s)
    decreases |s|
  {
    if atStart && OpenerMatch(s).Some? {
      var e := OpenerMatch(s).value;
      FenceSubDeletes(s[e..], false);
      SubseqOfSuffix(FenceSub(s[e..], false), s[..e], s[e..]);
      SplitAt(s, e);
    } else if CloserMatch(s).Some? {
      var e := CloserMatch(s).value;
      FenceSubDeletes(s[e..], false);
      SubseqOfSuffix(FenceSub(s[e..], false), s[..e], s[e..]);
      SplitAt(s, e);
    } else if s != [] {
      FenceSubDeletes(s[1..], false);
      SubseqCons(s[0], FenceSub(s[1..], false), s[1..]);
      HeadTail(s);
    }
  }

  /** The stored text is the reply with characters deleted: a subsequence,
      never longer. */
  lemma SanitiseDeletesOnly(raw: string)
    ensures IsSubseq(Sanitise(raw), raw)
    ensures |Sanitise(raw)| <= |raw|
  {
    var a := RemoveThink(raw);
    var b := Strip(a);
    var c := FenceSub(b, true);
    RemoveThinkDeletes(raw);
    StripDeletes(a);
    FenceSubDeletes(b, true);
    StripDeletes(c);
    SubseqTrans(b, a, raw);
    SubseqTrans(c, b, raw);
    SubseqTrans(Sanitise(raw), c, raw);
    SubseqLength(Sanitise(raw), raw);
  }

  /* ---------- the think-block substitution ---------- */

  /** Without an opening tag the first substitution changes nothing. */
  lemma {:induction false} RemoveThinkWithoutTag(s: string)
    requires IndexOf(s, THINK_OPEN) == None
    ensures RemoveThink(s) == s
    decreases |s|
  {
    if s != [] {
      assert !StartsWith(s, THINK_OPEN);
      RemoveThinkKeeps(s);
      NotFoundInTail(s, THINK_OPEN);
      RemoveThinkWithoutTag(s[1..]);
      HeadTail(s);
    }
  }

  /** In `m + "</think>" + t` with no closing tag inside `m`, the first
      closing tag is the one after `m`: the tag cannot overlap itself. */
  lemma FirstCloseTag(m: string, t: string)
    requires IndexOf(m, THINK_CLOSE) == None
    ensures IndexOf(m + THINK_CLOSE + t, THINK_CLOSE) == Some(|m|)
  {
    var s := m + THINK_CLOSE + t;
    assert s[|m|..|m| + |THINK_CLOSE|] == THINK_CLOSE;
    forall i: nat | i < |m| ensures !OccursAt(s, THINK_CLOSE, i) {
      if i + |THINK_CLOSE| <= |m| {
        assert s[i..i + |THINK_CLOSE|] == m[i..i + |THINK_CLOSE|];
        assert !OccursAt(m, THINK_CLOSE, i);
      } else {
        var k := i + 7 - |m|;
        assert 0 <= k < 7;
        assert s[i + 7] == THINK_CLOSE[k];
        assert THINK_CLOSE[k] != '>';
        assert s[i..i + |THINK_CLOSE|][7] == s[i + 7];
        assert s[i..i + |THINK_CLOSE|] != THINK_CLOSE;
      }
    }
    assert OccursAt(s, THINK_CLOSE, |m|);
    var r := IndexOf(s, THINK_CLOSE);
    assert r.Some? && !(r.value > |m|) && !(r.value < |m|);
  }

  /** No match starts at the front of `x + t` when `x` holds no opening
      tag and `t` is empty or starts with '<'. */
  lemma NoTagAtFront(x: string, t: string)
    requires x != [] && IndexOf(x, THINK_OPEN) == None
    requires t == [] || t[0] == '<'
    ensures !StartsWith(x + t, THINK_OPEN)
  {
    var s := x + t;
    if |x| >= |THINK_OPEN| {
      assert s[..|THINK_OPEN|] == x[..|THINK_OPEN|];
      assert !OccursAt(x, THINK_OPEN, 0);
    } else if t != [] {
      assert s[|x|] == '<';
      assert THINK_OPEN[|x|] != '<';
    }
  }

  /** Text that holds no opening tag, followed by text that is empty or
      starts with '<', is kept as it is: no match can start inside it. */
  lemma {:induction false} KeepsTextBeforeTag(x: string, t: string)
    requires IndexOf(x, THINK_OPEN) == None
    requires t == [] || t[0] == '<'
    ensures RemoveThink(x + t) == x + RemoveThink(t)
    decreases |x|
  {
    if x == [] {
      assert x + t == t;
    } else {
      var s := x + t;
      NoTagAtFront(x, t);
      RemoveThinkKeeps(s);
      NotFoundInTail(x, THINK_OPEN);
      ConsSplit(x, t);
      KeepsTextBeforeTag(x[1..], t);
      ConsSplit(x, RemoveThink(t));
    }
  }

  /** A block is removed together with its content (newlines included), up
      to the first closing tag, and the scan resumes after it. */
  lemma ThinkBlockRemoved(m: string, t: string)
    requires IndexOf(m, THINK_CLOSE) == None
    ensures RemoveThink(THINK_OPEN + m + THINK_CLOSE + t) == RemoveThink(t)
  {
    var s := THINK_OPEN + m + THINK_CLOSE + t;
    assert s[..|THINK_OPEN|] == THINK_OPEN;
    assert s[|THINK_OPEN|..] == m + THINK_CLOSE + t;
    FirstCloseTag(m, t);
    assert ThinkMatch(s) == Some(|THINK_OPEN| + |m| + |THINK_CLOSE|);
    assert s[|THINK_OPEN| + |m| + |THINK_CLOSE|..] == t;
  }

  /** Laziness: with two blocks, the text between them survives. */
  lemma TextBetweenBlocksSurvives(a: string, x: string, b: string)
    requires IndexOf(a, THINK_CLOSE) == None && IndexOf(b, THINK_CLOSE) == None
    requires IndexOf(x, THINK_OPEN) == None
    ensures RemoveThink(THINK_OPEN + a + THINK_CLOSE + x + THINK_OPEN + b + THINK_CLOSE) == x
  {
    var second := THINK_OPEN + b + THINK_CLOSE;
    Regroup(THINK_OPEN + a + THINK_CLOSE, x, THINK_OPEN, b, THINK_CLOSE);
    ThinkBlockRemoved(a, x + second);
    KeepsTextBeforeTag(x, second);
    AppendEmpty(second);
    ThinkBlockRemoved(b, []);
    AppendEmpty(x);
  }

  lemma TwoBlocksExample(reply: string)
    requires reply == "<think>a</think>X<think>b</think>"
    ensures RemoveThink(reply) == "X"
  {
    assert THINK_OPEN + "a" + THINK_CLOSE + "X" + THINK_OPEN + "b" + THINK_CLOSE == reply;
    TextBetweenBlocksSurvives("a", "X", "b");
  }

  /** A block whose content spans lines is removed whole. */
  lemma MultilineBlockExample(m: string, t: string)
    requires m == "step 1\nstep 2" && t == "{}"
    ensures RemoveThink(THINK_OPEN + m + THINK_CLOSE + t) == t
  {
    AbsentChar(m, THINK_CLOSE, 0);
    AbsentChar(t, THINK_OPEN, 0);
    ThinkBlockRemoved(m, t);
    RemoveThinkWithoutTag(t);
  }

  /* ---------- the fence substitution ---------- */

  /** A stripped text that does not end in a fence is left alone once the
      scan is past position 0. */
  lemma {:induction false} NoClosingFence(x: string)
    requires x == [] || !IsSpace(x[|x| - 1])
    requires !EndsWith(x, FENCE)
    ensures FenceSub(x, false) == x
    decreases |x|
  {
    if x != [] {
      CloserMatchAtEnd(x);
      FenceSubKeeps(x);
      if |x| > |FENCE| {
        EndsWithTail(x, FENCE);
      }
      NoClosingFence(x[1..]);
      HeadTail(x);
    }
  }

  /** Whitespace then a final fence is one match of the closing alternative. */
  lemma FenceAfterSpaces(w: string)
    requires AllSpace(w)
    ensures CloserMatch(w + FENCE) == Some(|w + FENCE|)
  {
    var s := w + FENCE;
    SpaceRunOfPadded(w, FENCE);
    assert s[|w|..|w| + |FENCE|] == FENCE;
  }

  /** No closing match starts where non-whitespace text precedes the fence. */
  lemma NoFenceBeforeText(x: string, w: string)
    requires x != [] && !IsSpace(x[|x| - 1])
    ensures CloserMatch(x + w + FENCE) == None
  {
    var s := x + w + FENCE;
    var k := SpaceRun(s);
    assert s[|x| - 1] == x[|x| - 1];
    SpaceRunStops(s, |x| - 1);
    if k + |FENCE| + 1 == |s| {
      assert s[k + |FENCE|] == '`';
    }
  }

  /** A final fence and the whitespace before it are removed, and nothing
      else, when the text before them does not end in whitespace. */
  lemma {:induction false} ClosingFenceRemoved(x: string, w: string)
    requires AllSpace(w)
    requires x == [] || !IsSpace(x[|x| - 1])
    ensures FenceSub(x + w + FENCE, false) == x
    decreases |x|
  {
    var s := x + w + FENCE;
    if x == [] {
      assert s == w + FENCE;
      FenceAfterSpaces(w);
    } else {
      NoFenceBeforeText(x, w);
      FenceSubKeeps(s);
      ConsSplit3(x, w, FENCE);
      ClosingFenceRemoved(x[1..], w);
      HeadTail(x);
    }
  }

  /** A leading "```json" and the whitespace after it are removed. */
  lemma JsonFenceRemoved(w: string, y: string)
    requires AllSpace(w)
    requires y == [] || !IsSpace(y[0])
    ensures FenceSub(JSON_FENCE + w + y, true) == FenceSub(y, false)
  {
    var s := JSON_FENCE + w + y;
    var n := |JSON_FENCE|;
    assert s[..n] == JSON_FENCE;
    assert s[n..] == w + y;
    SpaceRunOfPadded(w, y);
    assert s[n + |w|..] == y;
  }

  /** Only the exact "```json" opener is removed: a bare "```" at the start
      of a longer stripped text is kept. */
  lemma BareFenceKept(s: string)
    requires IsStripped(s) && |s| >= 6
    requires StartsWith(s, FENCE) && !StartsWith(s, JSON_FENCE)
    ensures FenceSub(s, true) == FENCE + FenceSub(s[3..], false)
  {
    assert OpenerMatch(s) == None;
    var a := FenceSub(s[3..], false);
    BacktickKept(s, 2);
    BacktickKept(s, 1);
    BacktickKept(s, 0);
    assert s[0..] == s;
    assert s[..3] == FENCE;
    ThreeBackticks(s, a);
  }

  lemma ThreeBackticks(s: string, a: string)
    requires |s| >= 3 && s[..3] == FENCE
    ensures [s[0]] + ([s[1]] + ([s[2]] + a)) == FENCE + a
  {
    assert s[0] == '`' && s[1] == '`' && s[2] == '`';
  }

  /** A backtick at `i` where no final fence can begin is kept by the scan. */
  lemma BacktickKept(s: string, i: nat)
    requires i + 3 < |s| && s[i] == '`'
    requires i + 4 < |s| || !IsSpace(s[|s| - 1])
    ensures FenceSub(s[i..], false) == [s[i]] + FenceSub(s[i + 1..], false)
  {
    var t := s[i..];
    assert SpaceRun(t) == 0;
    assert !EndAnchorAt(t, 3);
    assert CloserMatch(t) == None;
    FenceSubKeeps(t);
    assert t[1..] == s[i + 1..];
  }

  /* ---------- the whole rewrite ---------- */

  /** Once the think blocks are gone, a stripped text with neither fence
      comes through the rest of the rewrite unchanged. */
  lemma UnfencedUnchanged(b: string)
    requires IsStripped(b)
    requires !StartsWith(b, JSON_FENCE) && !EndsWith(b, FENCE)
    ensures Strip(FenceSub(Strip(b), true)) == b
  {
    StripStripped(b);
    assert FenceSub(b, true) == FenceSub(b, false);
    NoClosingFence(b);
  }

  /** A reply with no think block and no fences is only trimmed. */
  lemma PlainReplyOnlyTrimmed(raw: string)
    requires IndexOf(raw, THINK_OPEN) == None
    requires !StartsWith(Strip(raw), JSON_FENCE) && !EndsWith(Strip(raw), FENCE)
    ensures Sanitise(raw) == Strip(raw)
  {
    RemoveThinkWithoutTag(raw);
    var b := Strip(raw);
    StripStripped(b);
    UnfencedUnchanged(b);
    assert Sanitise(raw) == Strip(FenceSub(Strip(b), true));
  }

  /** A reply that is bare JSON, `{...}` with only whitespace around it and
      no think block, comes back trimmed and otherwise unchanged. */
  lemma BareJsonUnchanged(raw: string)
    requires IndexOf(raw, THINK_OPEN) == None
    requires Strip(raw) != [] && Strip(raw)[0] == '{' && Strip(raw)[|Strip(raw)| - 1] == '}'
    ensures Sanitise(raw) == Strip(raw)
  {
    var b := Strip(raw);
    assert !StartsWith(b, JSON_FENCE) by {
      if |b| >= |JSON_FENCE| {
        assert b[..|JSON_FENCE|][0] == b[0];
      }
    }
    assert !EndsWith(b, FENCE) by {
      if |b| >= |FENCE| {
        assert b[|b| - |FENCE|..][|FENCE| - 1] == b[|b| - 1];
      }
    }
    PlainReplyOnlyTrimmed(raw);
  }

  /** Two fences with only whitespace between them leave nothing. */
  lemma OnlyFences(w: string)
    requires AllSpace(w)
    ensures FenceSub(JSON_FENCE + w + FENCE, true) == []
  {
    JsonFenceRemoved(w, FENCE);
    AppendEmpty(FENCE);
    FenceAfterSpaces([]);
    assert FENCE[|FENCE|..] == [];
  }

  /** Both fences, and the whitespace just inside them, are removed. */
  lemma FencedAnswer(w1: string, body: string, w2: string)
    requires AllSpace(w1) && AllSpace(w2) && IsStripped(body)
    ensures FenceSub(JSON_FENCE + w1 + body + w2 + FENCE, true) == body
  {
    if body == [] {
      JoinAcrossEmpty(JSON_FENCE, w1, w2, FENCE);
      AllSpaceAppend(w1, w2);
      OnlyFences(w1 + w2);
    } else {
      Regroup3(JSON_FENCE + w1, body, w2, FENCE);
      JsonFenceRemoved(w1, body + w2 + FENCE);
      ClosingFenceRemoved(body, w2);
    }
  }

  /** A leading block is removed and text without an opening tag after it
      is kept whole. */
  lemma BlockThenText(m: string, tail: string)
    requires IndexOf(m, THINK_CLOSE) == None
    requires IndexOf(tail, THINK_OPEN) == None
    ensures RemoveThink(THINK_OPEN + m + THINK_CLOSE + tail) == tail
  {
    ThinkBlockRemoved(m, tail);
    RemoveThinkWithoutTag(tail);
  }

  lemma StripAroundFences(w0: string, w1: string, body: string, w2: string, w3: string)
    requires AllSpace(w0) && AllSpace(w3)
    ensures Strip(w0 + JSON_FENCE + w1 + body + w2 + FENCE + w3) == JSON_FENCE + w1 + body + w2 + FENCE
  {
    var core := JSON_FENCE + w1 + body + w2 + FENCE;
    assert w0 + JSON_FENCE + w1 + body + w2 + FENCE + w3 == w0 + core + w3;
    assert core[0] == '`' && core[|core| - 1] == '`';
    StripOfPadded(w0, core, w3);
  }

  /** A think block followed by a fenced JSON answer yields exactly the
      answer between the fences. */
  lemma FencedReplyAfterThinking(m: string, w0: string, w1: string, body: string, w2: string, w3: string)
    requires IndexOf(m, THINK_CLOSE) == None
    requires AllSpace(w0) && AllSpace(w1) && AllSpace(w2) && AllSpace(w3)
    requires IsStripped(body)
    requires IndexOf(w0 + JSON_FENCE + w1 + body + w2 + FENCE + w3, THINK_OPEN) == None
    ensures Sanitise(THINK_OPEN + m + THINK_CLOSE + (w0 + JSON_FENCE + w1 + body + w2 + FENCE + w3)) == body
  {
    var tail := w0 + JSON_FENCE + w1 + body + w2 + FENCE + w3;
    BlockThenText(m, tail);
    StripAroundFences(w0, w1, body, w2, w3);
    FencedAnswer(w1, body, w2);
    StripStripped(body);
  }

  lemma FencedExampleParts(m: string, body: string, w: string)
    requires m == "ignore" && body == "{\"title\":\"Red Bike\"}" && w == "\n"
    ensures IndexOf(JSON_FENCE + w + body + w + FENCE, THINK_OPEN) == None
    ensures IndexOf(m, THINK_CLOSE) == None
    ensures IsStripped(body)
  {
    var tail := JSON_FENCE + w + body + w + FENCE;
    assert '<' !in tail;
    AbsentChar(tail, THINK_OPEN, 0);
    AbsentChar(m, THINK_CLOSE, 0);
    assert body[0] == '{' && body[|body| - 1] == '}';
  }

  /** The worked example: a reasoning block, then a JSON object fenced as
      "```json\n...\n```", gives the bare object. */
  lemma FencedReplyExample(m: string, body: string, w: string)
    requires m == "ignore" && body == "{\"title\":\"Red Bike\"}" && w == "\n"
    ensures Sanitise(THINK_OPEN + m + THINK_CLOSE + (JSON_FENCE + w + body + w + FENCE)) == body
  {
    FencedExampleParts(m, body, w);
    assert [] + JSON_FENCE + w + body + w + FENCE + [] == JSON_FENCE + w + body + w + FENCE;
    FencedReplyAfterThinking(m, [], w, body, w, []);
  }

  /** The fence substitution on a text fenced with a bare "```": the
      opening fence stays, the closing one and the whitespace before it go. */
  lemma BareFenceSub(s: string, x: string, w: string)
    requires IsStripped(s) && StartsWith(s, FENCE) && !StartsWith(s, JSON_FENCE)
    requires s[3..] == x + w + FENCE
    requires AllSpace(w)
    requires x != [] && !IsSpace(x[|x| - 1])
    ensures FenceSub(s, true) == FENCE + x
  {
    BareFenceKept(s);
    ClosingFenceRemoved(x, w);
  }

  lemma BareFenceShape(x: string, w: string)
    requires AllSpace(w)
    requires x != [] && !IsSpace(x[|x| - 1])
    ensures IsStripped(FENCE + x + w + FENCE) && StartsWith(FENCE + x + w + FENCE, FENCE)
    ensures (FENCE + x + w + FENCE)[3..] == x + w + FENCE
    ensures IsStripped(FENCE + x)
  {
    var s := FENCE + x + w + FENCE;
    assert s[0] == '`' && s[|s| - 1] == '`';
    assert s[..3] == FENCE;
    assert (FENCE + x)[0] == '`' && (FENCE + x)[|FENCE + x| - 1] == x[|x| - 1];
  }

  /** A reply fenced with a bare "```" keeps its opening fence; only the
      closing one goes. */
  lemma BareFencedReply(x: string, w: string)
    requires AllSpace(w)
    requires x != [] && !IsSpace(x[|x| - 1])
    requires IndexOf(FENCE + x + w + FENCE, THINK_OPEN) == None
    requires !StartsWith(FENCE + x + w + FENCE, JSON_FENCE)
    ensures Sanitise(FENCE + x + w + FENCE) == FENCE + x
  {
    var s := FENCE + x + w + FENCE;
    BareFenceShape(x, w);
    RemoveThinkWithoutTag(s);
    StripStripped(s);
    BareFenceSub(s, x, w);
    StripStripped(FENCE + x);
  }

  lemma BareFenceParts(x: string)
    requires x == "\n{}"
    ensures IndexOf(FENCE + x + "\n" + FENCE, THINK_OPEN) == None
    ensures !StartsWith(FENCE + x + "\n" + FENCE, JSON_FENCE)
    ensures x != [] && !IsSpace(x[|x| - 1])
  {
    BareFenceHasNoTag(x);
    BareFenceNotJson(x);
  }

  lemma BareFenceHasNoTag(x: string)
    requires x == "\n{}"
    ensures IndexOf(FENCE + x + "\n" + FENCE, THINK_OPEN) == None
  {
    var s := FENCE + x + "\n" + FENCE;
    assert '<' !in s;
    AbsentChar(s, THINK_OPEN, 0);
  }

  lemma BareFenceNotJson(x: string)
    requires x == "\n{}"
    ensures !StartsWith(FENCE + x + "\n" + FENCE, JSON_FENCE)
  {
    var s := FENCE + x + "\n" + FENCE;
    assert s[..|JSON_FENCE|][3] == '\n';
  }

  lemma BareFenceExample(x: string)
    requires x == "\n{}"
    ensures Sanitise(FENCE + x + "\n" + FENCE) == FENCE + x
  {
    BareFenceParts(x);
    assert AllSpace("\n");
    BareFencedReply(x, "\n");
  }

  /** The closing tag does not contain the opening one. */
  lemma CloseTagHasNoOpenTag()
    ensures IndexOf(THINK_CLOSE, THINK_OPEN) == None
  {
    assert !OccursAt(THINK_CLOSE, THINK_OPEN, 0) by { assert THINK_CLOSE[..7][1] == '/'; }
    assert !OccursAt(THINK_CLOSE, THINK_OPEN, 1) by { assert THINK_CLOSE[1..8][0] == '/'; }
  }

  /** A stray closing tag with no opening tag before it is kept. */
  lemma StrayCloseTagKept(b: string)
    requires IndexOf(b, THINK_OPEN) == None
    ensures RemoveThink(b + THINK_CLOSE) == b + THINK_CLOSE
  {
    KeepsTextBeforeTag(b, THINK_CLOSE);
    CloseTagHasNoOpenTag();
    RemoveThinkWithoutTag(THINK_CLOSE);
  }

  /** A block between two tag-free texts is removed and the texts are
      joined, even when the join spells a new tag. */
  lemma BlockBetween(a: string, x: string, b: string)
    requires IndexOf(a, THINK_OPEN) == None && IndexOf(b, THINK_OPEN) == None
    requires IndexOf(x, THINK_CLOSE) == None
    ensures RemoveThink(a + (THINK_OPEN + x + THINK_CLOSE + (b + THINK_CLOSE))) == a + (b + THINK_CLOSE)
  {
    var rest := THINK_OPEN + x + THINK_CLOSE + (b + THINK_CLOSE);
    ThinkBlockRemoved(x, b + THINK_CLOSE);
    StrayCloseTagKept(b);
    assert rest[0] == '<';
    KeepsTextBeforeTag(a, rest);
  }

  lemma JoinsTagParts(a: string, x: string, b: string)
    requires a == "<thi" && x == "x" && b == "nk>y"
    ensures IndexOf(a, THINK_OPEN) == None && IndexOf(b, THINK_OPEN) == None
    ensures IndexOf(x, THINK_CLOSE) == None
    ensures a + (b + THINK_CLOSE) == THINK_OPEN + "y" + THINK_CLOSE
  {
    AbsentChar(b, THINK_OPEN, 0);
    AbsentChar(x, THINK_CLOSE, 0);
  }

  /** The think-block substitution on "<thi<think>x</think>nk>y</think>":
      removing the inner block joins the two halves of an opening tag. */
  lemma RemoveThinkJoinsTag(a: string, x: string, b: string)
    requires a == "<thi" && x == "x" && b == "nk>y"
    ensures RemoveThink(a + (THINK_OPEN + x + THINK_CLOSE + (b + THINK_CLOSE))) == THINK_OPEN + "y" + THINK_CLOSE
  {
    JoinsTagParts(a, x, b);
    BlockBetween(a, x, b);
  }

  lemma JoinedTagParts(once: string)
    requires once == THINK_OPEN + "y" + THINK_CLOSE
    ensures IsStripped(once) && !StartsWith(once, JSON_FENCE) && !EndsWith(once, FENCE)
  {
  }

  /** The whole rewrite on the same reply leaves a complete block behind. */
  lemma SanitiseJoinsTag(a: string, x: string, b: string)
    requires a == "<thi" && x == "x" && b == "nk>y"
    ensures Sanitise(a + (THINK_OPEN + x + THINK_CLOSE + (b + THINK_CLOSE))) == THINK_OPEN + "y" + THINK_CLOSE
  {
    RemoveThinkJoinsTag(a, x, b);
    var once := THINK_OPEN + "y" + THINK_CLOSE;
    JoinedTagParts(once);
    UnfencedUnchanged(once);
  }

  /** Sanitising twice is not sanitising once: the block joined by the
      first pass is removed by the second. */
  lemma SanitiseNotIdempotent(a: string, x: string, b: string)
    requires a == "<thi" && x == "x" && b == "nk>y"
    ensures Sanitise(Sanitise(a + (THINK_OPEN + x + THINK_CLOSE + (b + THINK_CLOSE)))) == []
    ensures Sanitise(a + (THINK_OPEN + x + THINK_CLOSE + (b + THINK_CLOSE))) != []
  {
    SanitiseJoinsTag(a, x, b);
    var once := THINK_OPEN + "y" + THINK_CLOSE;
    assert once == THINK_OPEN + "y" + THINK_CLOSE + [];
    AbsentChar("y", THINK_CLOSE, 0);
    ThinkBlockRemoved("y", []);
  }
}
