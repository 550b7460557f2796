/**
 * The rolling transcript history: when the assistant's turn completes, the
 * text accumulated over that turn is prepended to the history, which keeps
 * only the three most recent entries, newest first.
 */
module Transcript {

  /** How many finished turns the history keeps. */
  const HistoryLimit: nat := 3

  /** The first `n` elements of `s`, or all of them when there are fewer:
      `s.slice(0, n)`. */
  function Take<T>(s: seq<T>, n: nat): (r: seq<T>)
    ensures |r| == if |s| < n then |s| else n
    ensures r == s[..|r|]
  {
    if |s| < n then s else s[..n]
  }

  /** The history after a turn whose text is `entry`:
      `[entry, ...history].slice(0, 3)`. */
  function Rolled(entry: string, history: seq<string>): (h: seq<string>)
    ensures |h| == if |history| < HistoryLimit then |history| + 1 else HistoryLimit
    ensures h[0] == entry
    ensures forall k :: 1 <= k < |h| ==> h[k] == history[k - 1]
  {
    Take([entry] + history, HistoryLimit)
  }

  /** `s` in reverse order. */
  function Reverse<T>(s: seq<T>): (r: seq<T>)
    ensures |r| == |s|
    ensures forall k :: 0 <= k < |s| ==> r[k] == s[|s| - 1 - k]
  {
    if s == [] then [] else Reverse(s[1..]) + [s[0]]
  }

  /** The turns whose accumulated text is not empty, in order. */
  function Recorded(turns: seq<string>): (r: seq<string>)
    ensures |r| <= |turns|
    ensures forall k :: 0 <= k < |r| ==> r[k] != ""
    ensures forall x :: x in r <==> x in turns && x != ""
    ensures (forall k :: 0 <= k < |turns| ==> turns[k] != "") ==> r == turns
  {
    if turns == [] then []
    else if turns[0] == "" then Recorded(turns[1..])
    else [turns[0]] + Recorded(turns[1..])
  }

  /** Filtering distributes over concatenation: the turns with text keep
      their order, and each is kept exactly once. */
  lemma {:induction false} RecordedAppend(a: seq<string>, b: seq<string>)
    ensures Recorded(a + b) == Recorded(a) + Recorded(b)
  {
    if a == [] {
      assert a + b == b;
    } else {
      assert (a + b)[0] == a[0];
      assert (a + b)[1..] == a[1..] + b;
      RecordedAppend(a[1..], b);
    }
  }

  /** The history after a sequence of completed turns, each given by the text
      accumulated when its turn completed; a turn with no text leaves the
      history as it was. */
  function AfterTurns(history: seq<string>, turns: seq<string>): (r: seq<string>)
    decreases |turns|
    ensures |history| <= HistoryLimit ==> |r| <= HistoryLimit
    ensures forall x :: x in r ==> x in history || x in turns
  {
    if turns == [] then history
    else AfterTurns(if turns[0] == "" then history else Rolled(turns[0], history), turns[1..])
  }

  /** Whatever turns have completed, the history holds the three most recent
      turns that had text, newest first, followed by what it held before. */
  lemma {:induction false} HistoryIsLatestTurns(history: seq<string>, turns: seq<string>)
    requires |history| <= HistoryLimit
    ensures AfterTurns(history, turns) == Take(Reverse(Recorded(turns)) + history, HistoryLimit)
    decreases |turns|
  {
    if turns == [] {
    } else if turns[0] == "" {
      HistoryIsLatestTurns(history, turns[1..]);
      assert Recorded(turns) == Recorded(turns[1..]);
    } else {
      var x := turns[0];
      var rest := Recorded(turns[1..]);
      var tail := Reverse(rest);
      HistoryIsLatestTurns(Rolled(x, history), turns[1..]);
      TakeAfterPrefix(tail, x, history);
      assert Recorded(turns) == [x] + rest;
      ReverseCons(x, rest);
      assert tail + [x] + history == tail + ([x] + history);
    }
  }

  /** Reversal of a list with one more element in front. */
  lemma ReverseCons(x: string, s: seq<string>)
    ensures Reverse([x] + s) == Reverse(s) + [x]
  {
    assert ([x] + s)[1..] == s;
  }

  /** Truncating the inner history is invisible after any prefix is added and
      the whole is truncated again. */
  lemma {:induction false} TakeAfterPrefix(p: seq<string>, x: string, s: seq<string>)
    ensures Take(p + Take([x] + s, HistoryLimit), HistoryLimit) == Take(p + ([x] + s), HistoryLimit)
  {
    var t := [x] + s;
    var r := Take(t, HistoryLimit);
    var lhs := Take(p + r, HistoryLimit);
    var rhs := Take(p + t, HistoryLimit);
    assert |lhs| == |rhs|;
    forall k | 0 <= k < |lhs| ensures lhs[k] == rhs[k] {
      if k < |p| {
      } else {
        assert (p + r)[k] == r[k - |p|];
        assert (p + t)[k] == t[k - |p|];
      }
    }
  }
}
