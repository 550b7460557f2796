/**
 * The action-directive scanner of the session controller (`handleActionParsing`).
 *
 * The scanner runs the global regular expression
 *     \[ACTION:\s*([A-Z0-9_:]+)\s*\]
 * over one transcript fragment with `exec` in a loop, and for every match
 * whose captured action starts with `GEN_IMAGE:` it requests an image for
 * `action.split('GEN_IMAGE:')[1].trim()`. The expression is written out here
 * as an explicit matcher. It never needs to backtrack: the two whitespace
 * runs and the action run are made of disjoint character sets, and `]` is in
 * none of them, so the greedy run lengths alone decide whether a match starts
 * at a given index.
 */
module ActionParser {
  import opened Wrappers
  import opened JsString

  /** The literal that opens a directive. */
  const ActionOpen := "[ACTION:"

  /** The action kind that requests an image, with its separator. */
  const GenImageTag := "GEN_IMAGE:"

  /** The character class `[A-Z0-9_:]` of the captured action. */
  predicate IsActionChar(c: char): (b: bool)
    ensures b ==> !IsSpace(c) && c != '[' && c != ']'
  {
    'A' <= c <= 'Z' || '0' <= c <= '9' || c == '_' || c == ':'
  }

  /** One match, as `exec` reports it: where it starts (`match.index`), the
      bounds and text of the captured group (`match[1]`), and where the next
      search resumes (`lastIndex`). */
  datatype Match = Match(start: nat, actionStart: nat, actionEnd: nat, end: nat, action: string)

  /** The expression matches `text[i..d + 1]` with the group capturing
      `text[b..c]`: the opening literal, whitespace, a non-empty action,
      whitespace and the closing bracket at index `d`. */
  predicate Shape(text: string, i: nat, b: nat, c: nat, d: nat) {
    && i + |ActionOpen| <= b < c <= d < |text|
    && text[i..i + |ActionOpen|] == ActionOpen
    && All(text[i + |ActionOpen|..b], IsSpace)
    && All(text[b..c], IsActionChar)
    && All(text[c..d], IsSpace)
    && text[d] == ']'
  }

  /** A run that satisfies `p` and is followed by a character outside `p` (or
      by the end of the string) is exactly the greedy run. */
  lemma SpanUnique(s: string, i: nat, k: nat, p: char -> bool)
    requires i <= k <= |s|
    requires All(s[i..k], p)
    requires k == |s| || !p(s[k])
    ensures Span(s, i, p) == k
  {
  }

  /** Any way of matching at `i` is the one the greedy runs find. */
  lemma ShapeIsGreedy(text: string, i: nat, b: nat, c: nat, d: nat)
    requires Shape(text, i, b, c, d)
    ensures b == Span(text, i + |ActionOpen|, IsSpace)
    ensures c == Span(text, b, IsActionChar)
    ensures d == Span(text, c, IsSpace)
  {
    assert text[b..c][0] == text[b];
    SpanUnique(text, i + |ActionOpen|, b, IsSpace);
    if c < d {
      assert text[c..d][0] == text[c];
    }
    SpanUnique(text, b, c, IsActionChar);
    SpanUnique(text, c, d, IsSpace);
  }

  /** The expression anchored at index `i`: the match starting there, if any. */
  function MatchAt(text: string, i: nat): (r: Option<Match>)
    requires i <= |text|
    ensures r.Some? ==> && r.value.start == i && 0 < r.value.end
                        && Shape(text, i, r.value.actionStart, r.value.actionEnd, r.value.end - 1)
                        && r.value.action == text[r.value.actionStart..r.value.actionEnd]
  {
    if i + |ActionOpen| <= |text| && text[i..i + |ActionOpen|] == ActionOpen then
      var b := Span(text, i + |ActionOpen|, IsSpace);
      var c := Span(text, b, IsActionChar);
      var d := Span(text, c, IsSpace);
      if b < c && d < |text| && text[d] == ']' then
        Some(Match(i, b, c, d + 1, text[b..c]))
      else
        None
    else
      None
  }

  /** Where the opening literal, a whitespace run, a non-empty action run and
      a second whitespace run are laid out from index `i`, the expression
      matches at `i` exactly when the next character closes the bracket. */
  lemma MatchAtDecided(text: string, i: nat, b: nat, c: nat, d: nat)
    requires i + |ActionOpen| <= b < c <= d < |text|
    requires text[i..i + |ActionOpen|] == ActionOpen
    requires All(text[i + |ActionOpen|..b], IsSpace) && All(text[b..c], IsActionChar) && All(text[c..d], IsSpace)
    requires !IsSpace(text[d]) && (c == d ==> !IsActionChar(text[d]))
    ensures MatchAt(text, i).Some? <==> text[d] == ']'
  {
    assert text[b..c][0] == text[b];
    SpanUnique(text, i + |ActionOpen|, b, IsSpace);
    if c < d {
      assert text[c..d][0] == text[c];
    }
    SpanUnique(text, b, c, IsActionChar);
    SpanUnique(text, c, d, IsSpace);
  }

  /** The matcher misses nothing: where it reports no match, the expression
      cannot match in any way. */
  lemma MatchAtComplete(text: string, i: nat, b: nat, c: nat, d: nat)
    requires i <= |text| && Shape(text, i, b, c, d)
    ensures MatchAt(text, i) == Some(Match(i, b, c, d + 1, text[b..c]))
  {
    ShapeIsGreedy(text, i, b, c, d);
  }

  /** No match starts at any index in `[lo, hi)`. */
  predicate NoMatchIn(text: string, lo: nat, hi: nat) {
    forall j: nat :: lo <= j < hi && j <= |text| ==> MatchAt(text, j).None?
  }

  /** `actionRegex.exec(text)` with `lastIndex == from`: the leftmost match
      starting at or after `from`. */
  function Exec(text: string, from: nat): (r: Option<Match>)
    requires from <= |text|
    decreases |text| - from
    ensures r.Some? ==> from <= r.value.start < r.value.end <= |text| && MatchAt(text, r.value.start) == r
    ensures r.Some? ==> NoMatchIn(text, from, r.value.start)
    ensures r.None? ==> NoMatchIn(text, from, |text| + 1)
  {
    match MatchAt(text, from)
    case Some(m) => Some(m)
    case None =>
      if from == |text| then None
      else
        var r := Exec(text, from + 1);
        NoMatchExtend(text, from, if r.Some? then r.value.start else |text| + 1);
        r
  }

  /** A failed attempt at `lo` extends a stretch without matches down to it. */
  lemma NoMatchExtend(text: string, lo: nat, hi: nat)
    requires lo < |text| && MatchAt(text, lo).None? && NoMatchIn(text, lo + 1, hi)
    ensures NoMatchIn(text, lo, hi)
  {
  }

  /** Where the search for match `k` of `ms` resumes. */
  function Resume(ms: seq<Match>, from: nat, k: nat): nat
    requires k <= |ms|
  {
    if k == 0 then from else ms[k - 1].end
  }

  /** Every match of the global scan from `from`, in the order `exec` returns
      them. */
  function Matches(text: string, from: nat): (r: seq<Match>)
    requires from <= |text|
    decreases |text| - from
    ensures InOrder(text, from, r)
  {
    var found := Exec(text, from);
    if found.None? then []
    else
      var m := found.value;
      var rest := Matches(text, m.end);
      InOrderCons(text, from, m, rest);
      [m] + rest
  }

  /** A match placed before matches that start after it keeps them in order. */
  lemma InOrderCons(text: string, from: nat, m: Match, rest: seq<Match>)
    requires from <= m.start < m.end <= |text| && InOrder(text, m.end, rest)
    ensures InOrder(text, from, [m] + rest)
  {
    var ms := [m] + rest;
    forall k | 0 < k < |ms| ensures ms[k] == rest[k - 1] {}
  }

  /** The matches `ms` lie within `text[from..]`, in order, each ending
      before the next one starts. */
  predicate InOrder(text: string, from: nat, ms: seq<Match>) {
    && (forall k :: 0 <= k < |ms| ==> from <= ms[k].start < ms[k].end <= |text|)
    && (forall k :: 0 < k < |ms| ==> ms[k - 1].end <= ms[k].start)
  }

  /** Match `k` of `ms` is a genuine match of the expression, ending within
      the text. */
  predicate GenuineAt(text: string, ms: seq<Match>, k: nat)
    requires k < |ms|
  {
    ms[k].start < ms[k].end <= |text| && MatchAt(text, ms[k].start) == Some(ms[k])
  }

  /** The scan is sound: everything it returns is a match of the expression. */
  lemma {:induction false} MatchesGenuine(text: string, from: nat)
    requires from <= |text|
    decreases |text| - from
    ensures forall k :: 0 <= k < |Matches(text, from)| ==> GenuineAt(text, Matches(text, from), k)
  {
    match Exec(text, from)
    case None =>
    case Some(m) =>
      MatchesGenuine(text, m.end);
      var rest := Matches(text, m.end);
      var ms := Matches(text, from);
      assert ms == [m] + rest;
      forall k | 0 <= k < |ms|
        ensures GenuineAt(text, ms, k)
      {
        if k > 0 {
          assert GenuineAt(text, rest, k - 1);
          assert ms[k] == rest[k - 1];
        }
      }
  }

  /** Match `k` of `ms` starts where the search resumed (`from`, then the end
      of the previous match) or later, and no match starts in between. */
  predicate LeftmostAt(text: string, ms: seq<Match>, from: nat, k: nat)
    requires k < |ms|
  {
    Resume(ms, from, k) <= ms[k].start && NoMatchIn(text, Resume(ms, from, k), ms[k].start)
  }

  /** The scan is leftmost and non-overlapping. */
  lemma {:induction false} MatchesLeftmost(text: string, from: nat)
    requires from <= |text|
    decreases |text| - from
    ensures forall k :: 0 <= k < |Matches(text, from)| ==> LeftmostAt(text, Matches(text, from), from, k)
  {
    match Exec(text, from)
    case None =>
    case Some(m) =>
      MatchesLeftmost(text, m.end);
      var rest := Matches(text, m.end);
      var ms := Matches(text, from);
      assert ms == [m] + rest;
      forall k | 0 <= k < |ms|
        ensures LeftmostAt(text, ms, from, k)
      {
        if k > 0 {
          assert LeftmostAt(text, rest, m.end, k - 1);
          assert ms[k] == rest[k - 1];
          assert Resume(ms, from, k) == Resume(rest, m.end, k - 1) by {
            if k > 1 { assert ms[k - 1] == rest[k - 2]; }
          }
        }
      }
  }

  /** The scan is exhaustive: no match starts after the end of the last one. */
  lemma {:induction false} MatchesExhaustive(text: string, from: nat)
    requires from <= |text|
    decreases |text| - from
    ensures var ms := Matches(text, from);
      NoMatchIn(text, Resume(ms, from, |ms|), |text| + 1)
  {
    match Exec(text, from)
    case None =>
    case Some(m) =>
      MatchesExhaustive(text, m.end);
      var rest := Matches(text, m.end);
      var ms := Matches(text, from);
      assert ms == [m] + rest;
      assert Resume(ms, from, |ms|) == Resume(rest, m.end, |rest|);
  }

  /** The image prompt a captured action yields: for an action starting with
      `GEN_IMAGE:`, `action.split('GEN_IMAGE:')[1].trim()`; none otherwise. */
  function ImagePrompt(action: string): (r: Option<string>)
    ensures r.Some? <==> StartsWith(action, GenImageTag)
  {
    if StartsWith(action, GenImageTag) then
      assert IndexOf(action, GenImageTag, 0) == Some(0);
      Some(Trim(Split(action, GenImageTag)[1]))
    else
      None
  }

  /** For an action made of `[A-Z0-9_:]` and starting with `GEN_IMAGE:`, the
      prompt is the text after that tag up to the next `GEN_IMAGE:` or the end
      of the action; `trim` leaves it as it is. */
  lemma ImagePromptIsSegment(action: string)
    requires All(action, IsActionChar) && StartsWith(action, GenImageTag)
    ensures ImagePrompt(action).Some?
    ensures var p := ImagePrompt(action).value;
      && |GenImageTag| + |p| <= |action|
      && p == action[|GenImageTag|..|GenImageTag| + |p|]
      && All(p, IsActionChar)
      && (forall j: nat :: !OccursAt(p, GenImageTag, j))
      && (|GenImageTag| + |p| == |action| || OccursAt(action, GenImageTag, |GenImageTag| + |p|))
  {
    var n := |GenImageTag|;
    var seg := Split(action, GenImageTag)[1];
    SecondPiece(action);
    forall k | 0 <= k < |seg| ensures !IsSpace(seg[k]) && IsActionChar(seg[k]) {
      assert seg[k] == action[n + k];
    }
    TrimWithoutSpace(seg);
  }

  /** When `s` starts with `GEN_IMAGE:`, the second piece of its split is the
      text after that tag up to the next one or the end. */
  lemma SecondPiece(s: string)
    requires StartsWith(s, GenImageTag)
    ensures |Split(s, GenImageTag)| >= 2
    ensures var n := |GenImageTag|;
      var seg := Split(s, GenImageTag)[1];
      && n + |seg| <= |s|
      && seg == s[n..n + |seg|]
      && (forall j: nat :: !OccursAt(seg, GenImageTag, j))
      && (n + |seg| == |s| || OccursAt(s, GenImageTag, n + |seg|))
  {
    var n := |GenImageTag|;
    var rest := s[n..];
    SplitLeadingSeparator(s, GenImageTag);
    var seg := Split(rest, GenImageTag)[0];
    SplitFirstPiece(rest, GenImageTag);
    assert seg == s[n..n + |seg|];
    if |seg| < |rest| {
      SliceOfSuffix(s, n, |seg|, |seg| + n);
    }
  }

  /** A slice of a suffix is a slice of the whole. */
  lemma SliceOfSuffix(s: string, n: nat, i: nat, j: nat)
    requires n <= |s| && i <= j <= |s| - n
    ensures s[n..][i..j] == s[n + i..n + j]
  {
  }

  /** The image requests one match leads to: its prompt, if it has one. */
  function RequestsFor(m: Match): seq<string> {
    match ImagePrompt(m.action)
    case Some(p) => [p]
    case None => []
  }

  /** The prompts one list of matches dispatches, in order. */
  function PromptsOf(ms: seq<Match>): (r: seq<string>)
    ensures |r| <= |ms|
  {
    if ms == [] then [] else RequestsFor(ms[0]) + PromptsOf(ms[1..])
  }

  /** A match found later dispatches its prompt after the earlier ones. */
  lemma {:induction false} PromptsOfAppend(ms: seq<Match>, m: Match)
    ensures PromptsOf(ms + [m]) == PromptsOf(ms) + RequestsFor(m)
  {
    if ms == [] {
      assert PromptsOf([m]) == RequestsFor(m) + PromptsOf([]);
    } else {
      assert (ms + [m])[1..] == ms[1..] + [m];
      PromptsOfAppend(ms[1..], m);
    }
  }

  /** One step of the scan: the match `exec` finds, then the scan from its end. */
  lemma MatchesStep(text: string, from: nat)
    requires from <= |text|
    ensures Exec(text, from).None? ==> Matches(text, from) == []
    ensures Exec(text, from).Some? ==>
      Matches(text, from) == [Exec(text, from).value] + Matches(text, Exec(text, from).value.end)
  {
  }

  /** The prompts the scan of one fragment sends to image generation. */
  function Dispatched(text: string): (r: seq<string>)
    ensures |r| <= |Matches(text, 0)|
  {
    PromptsOf(Matches(text, 0))
  }

  /** One turn of the `exec` loop keeps its invariant: the matches seen so
      far followed by the rest of the scan are the whole scan. */
  lemma ScanStep(text: string, lastIndex: nat, seen: seq<Match>)
    requires lastIndex <= |text| && Exec(text, lastIndex).Some?
    requires seen + Matches(text, lastIndex) == Matches(text, 0)
    ensures var m := Exec(text, lastIndex).value;
      && lastIndex < m.end <= |text|
      && (seen + [m]) + Matches(text, m.end) == Matches(text, 0)
  {
    var m := Exec(text, lastIndex).value;
    MatchesStep(text, lastIndex);
    assert (seen + [m]) + Matches(text, m.end) == seen + ([m] + Matches(text, m.end));
  }

  /** `handleActionParsing`: the `exec` loop over one fragment, returning the
      prompts it passes to `generateImage`, in call order. */
  method HandleActionParsing(text: string) returns (prompts: seq<string>)
    ensures prompts == Dispatched(text)
  {
    prompts := [];
    ghost var seen: seq<Match> := [];
    var lastIndex := 0;
    var found := Exec(text, lastIndex);
    while found.Some?
      invariant lastIndex <= |text|
      invariant found == Exec(text, lastIndex)
      invariant seen + Matches(text, lastIndex) == Matches(text, 0)
      invariant prompts == PromptsOf(seen)
      decreases |text| - lastIndex
    {
      var m := found.value;
      ScanStep(text, lastIndex, seen);
      PromptsOfAppend(seen, m);
      match ImagePrompt(m.action) {
        case Some(p) => prompts := prompts + [p];
        case None =>
      }
      seen := seen + [m];
      lastIndex := m.end;
      found := Exec(text, lastIndex);
    }
    MatchesStep(text, lastIndex);
    assert seen + [] == seen;
  }

  /** A run of `[A-Z0-9_:]` characters holding no `GEN_IMAGE:`, which `trim`
      does not change. */
  ghost predicate IsActionText(p: string) {
    All(p, IsActionChar) && Trim(p) == p && forall j: nat :: !OccursAt(p, GenImageTag, j)
  }

  /** Every dispatched prompt is action text. */
  lemma DispatchedPromptsAreActionText(text: string)
    ensures forall p :: p in Dispatched(text) ==> IsActionText(p)
  {
    var ms := Matches(text, 0);
    MatchesGenuine(text, 0);
    forall k | 0 <= k < |ms| ensures ms[k].start <= |text| && MatchAt(text, ms[k].start) == Some(ms[k]) {
      assert GenuineAt(text, ms, k);
    }
    PromptsOfActionText(text, ms);
  }

  /** The prompt one genuine match requests, if any, is action text. */
  lemma RequestIsActionText(text: string, m: Match)
    requires m.start <= |text| && MatchAt(text, m.start) == Some(m)
    ensures forall p :: p in RequestsFor(m) ==> IsActionText(p)
  {
    var a := m.action;
    forall k | 0 <= k < |a| ensures IsActionChar(a[k]) {
      assert a[k] == text[m.actionStart..m.actionEnd][k];
    }
    if StartsWith(a, GenImageTag) {
      ImagePromptIsSegment(a);
      var p := ImagePrompt(a).value;
      forall k | 0 <= k < |p| ensures !IsSpace(p[k]) {
        assert IsActionChar(p[k]);
      }
      TrimWithoutSpace(p);
    }
  }

  /** The prompts of any list of genuine matches are action text. */
  lemma {:induction false} PromptsOfActionText(text: string, ms: seq<Match>)
    requires forall k :: 0 <= k < |ms| ==> ms[k].start <= |text| && MatchAt(text, ms[k].start) == Some(ms[k])
    ensures forall p :: p in PromptsOf(ms) ==> IsActionText(p)
  {
    if ms != [] {
      RequestIsActionText(text, ms[0]);
      PromptsOfActionText(text, ms[1..]);
      assert PromptsOf(ms) == RequestsFor(ms[0]) + PromptsOf(ms[1..]);
    }
  }
}
