/**
 * What the scanner does with a few concrete transcript fragments: the
 * space-free directive it accepts, the spaced form the assistant's system
 * prompt asks for (which it does not accept), a bracket with no directive or
 * no closing bracket, and a directive cut across two fragments.
 */
module ActionExamples {
  import opened Wrappers
  import opened JsString
  import opened ActionParser

  /** Where each piece of a directive laid out in `text` sits. */
  lemma Layout(text: string, pre: string, ws1: string, action: string, ws2: string, rest: string)
    requires text == pre + ActionOpen + ws1 + action + ws2 + rest
    ensures var a := |pre| + |ActionOpen|;
      var b := a + |ws1|;
      var c := b + |action|;
      var d := c + |ws2|;
      && |text| == d + |rest|
      && text[|pre|..a] == ActionOpen
      && (forall k :: 0 <= k < |pre| ==> text[k] == pre[k])
      && (forall k :: a <= k < b ==> text[k] == ws1[k - a])
      && (forall k :: b <= k < c ==> text[k] == action[k - b])
      && (forall k :: c <= k < d ==> text[k] == ws2[k - c])
      && (forall k :: d <= k < |text| ==> text[k] == rest[k - d])
  {
    var o := |pre|;
    var a := o + |ActionOpen|;
    assert text[o..a] == ActionOpen by {
      assert text == pre + ActionOpen + (ws1 + action + ws2 + rest);
    }
  }

  /** The runs of a directive laid out in `text`, as the matcher sees them. */
  lemma LayoutRuns(text: string, pre: string, ws1: string, action: string, ws2: string, rest: string)
    requires text == pre + ActionOpen + ws1 + action + ws2 + rest
    requires All(ws1, IsSpace) && All(action, IsActionChar) && All(ws2, IsSpace)
    ensures var a := |pre| + |ActionOpen|;
      var b := a + |ws1|;
      var c := b + |action|;
      var d := c + |ws2|;
      && text[|pre|..a] == ActionOpen
      && All(text[a..b], IsSpace) && All(text[b..c], IsActionChar) && All(text[c..d], IsSpace)
  {
    Layout(text, pre, ws1, action, ws2, rest);
    var a := |pre| + |ActionOpen|;
    var b := a + |ws1|;
    var c := b + |action|;
    var d := c + |ws2|;
    forall k | 0 <= k < b - a ensures IsSpace(text[a..b][k]) {
      assert text[a..b][k] == ws1[k];
    }
    forall k | 0 <= k < c - b ensures IsActionChar(text[b..c][k]) {
      assert text[b..c][k] == action[k];
    }
    forall k | 0 <= k < d - c ensures IsSpace(text[c..d][k]) {
      assert text[c..d][k] == ws2[k];
    }
  }

  /** Over a directive laid out in `text`, the expression matches at the
      opening bracket exactly when the first character after the second
      whitespace run is `]`. */
  lemma LaidOutDirective(text: string, pre: string, ws1: string, action: string, ws2: string, rest: string)
    requires text == pre + ActionOpen + ws1 + action + ws2 + rest
    requires All(ws1, IsSpace) && All(action, IsActionChar) && All(ws2, IsSpace)
    requires action != [] && !IsSpace(action[0])
    requires rest != [] && !IsSpace(rest[0]) && (ws2 != [] || !IsActionChar(rest[0]))
    ensures MatchAt(text, |pre|).Some? <==> rest[0] == ']'
  {
    Layout(text, pre, ws1, action, ws2, rest);
    LayoutRuns(text, pre, ws1, action, ws2, rest);
    var b := |pre| + |ActionOpen| + |ws1|;
    var c := b + |action|;
    var d := c + |ws2|;
    assert text[d] == rest[0];
    MatchAtDecided(text, |pre|, b, c, d);
  }

  /** A match can only start at an opening bracket. */
  lemma MatchStartsAtBracket(text: string, i: nat)
    requires i <= |text| && MatchAt(text, i).Some?
    ensures i < |text| && text[i] == '['
  {
    assert text[i..i + |ActionOpen|][0] == ActionOpen[0];
  }

  /** A match needs a closing bracket after its start. */
  lemma MatchNeedsClosingBracket(text: string, i: nat)
    requires i <= |text| && MatchAt(text, i).Some?
    ensures exists d :: i < d < |text| && text[d] == ']'
  {
    var m := MatchAt(text, i).value;
    assert text[m.end - 1] == ']';
  }

  /** No match starts anywhere in `text`, so its scan is empty and it
      dispatches nothing. */
  lemma NoMatchNothingDispatched(text: string)
    requires forall j :: 0 <= j <= |text| ==> MatchAt(text, j).None?
    ensures Matches(text, 0) == [] && Dispatched(text) == []
  {
    MatchesStep(text, 0);
  }

  /** A fragment whose only opening bracket starts no match dispatches
      nothing. */
  lemma LoneFailedBracket(text: string, i: nat)
    requires i <= |text| && MatchAt(text, i).None?
    requires forall j :: 0 <= j < |text| && j != i ==> text[j] != '['
    ensures Dispatched(text) == []
  {
    forall j | 0 <= j <= |text| ensures MatchAt(text, j).None? {
      if j != i && MatchAt(text, j).Some? {
        MatchStartsAtBracket(text, j);
      }
    }
    NoMatchNothingDispatched(text);
  }

  /** The directive in the form the assistant's system prompt asks for,
      `[ACTION: GEN_IMAGE: <prompt>]`, with whitespace after the tag, is never
      dispatched: the whitespace ends the action run and the prompt's first
      character is not `]`. This covers a Bengali prompt such as
      "ছবি তৈরি করছি [ACTION: GEN_IMAGE: একটি লাল গোলাপ]". */
  lemma SpacedPromptNotDispatched(pre: string, ws1: string, ws2: string, arg: string)
    requires All(ws1, IsSpace) && ws2 != [] && All(ws2, IsSpace)
    requires arg != [] && !IsSpace(arg[0]) && arg[0] != ']'
    requires forall k :: 0 <= k < |pre| ==> pre[k] != '['
    requires forall k :: 0 <= k < |arg| ==> arg[k] != '['
    ensures Dispatched(pre + ActionOpen + ws1 + GenImageTag + ws2 + arg) == []
  {
    var text := pre + ActionOpen + ws1 + GenImageTag + ws2 + arg;
    assert All(GenImageTag, IsActionChar);
    Layout(text, pre, ws1, GenImageTag, ws2, arg);
    LaidOutDirective(text, pre, ws1, GenImageTag, ws2, arg);
    forall j | 0 <= j < |text| && j != |pre| ensures text[j] != '[' {
      if |pre| < j < |pre| + |ActionOpen| {
        assert text[|pre|..|pre| + |ActionOpen|][j - |pre|] == text[j];
      }
    }
    LoneFailedBracket(text, |pre|);
  }

  /** The only match of a fragment that is one whole directive. */
  lemma WholeDirective(text: string, b: nat, c: nat)
    requires |text| > 0 && Shape(text, 0, b, c, |text| - 1)
    ensures Matches(text, 0) == [Match(0, b, c, |text|, text[b..c])]
  {
    MatchAtComplete(text, 0, b, c, |text| - 1);
    assert Exec(text, 0) == Some(Match(0, b, c, |text|, text[b..c]));
    MatchesStep(text, 0);
    MatchesStep(text, |text|);
  }

  /** The prompts of a fragment that is one whole directive. */
  lemma WholeDirectivePrompts(text: string, b: nat, c: nat)
    requires |text| > 0 && Shape(text, 0, b, c, |text| - 1)
    ensures Dispatched(text) == RequestsFor(Match(0, b, c, |text|, text[b..c]))
  {
    WholeDirective(text, b, c);
    var m := Match(0, b, c, |text|, text[b..c]);
    assert PromptsOf([m]) == RequestsFor(m) + PromptsOf([]);
  }

  /** The prompt of a `GEN_IMAGE:` action with no second tag is everything
      after the tag. */
  lemma PromptOfSingleTag(action: string, p: string)
    requires action == GenImageTag + p && All(p, IsActionChar)
    requires forall j: nat :: !OccursAt(p, GenImageTag, j)
    ensures ImagePrompt(action) == Some(p)
  {
    var n := |GenImageTag|;
    assert action[..n] == GenImageTag;
    assert action[n..] == p;
    forall k | 0 <= k < |action| ensures IsActionChar(action[k]) {
      if k >= n { assert action[k] == p[k - n]; }
    }
    ImagePromptIsSegment(action);
    var q := ImagePrompt(action).value;
    assert q == action[n..];
  }

  /** A space-free directive `[ACTION:<ws>GEN_IMAGE:<p><ws>]` that is a whole
      fragment requests exactly one image, of `p`. */
  lemma SpaceFreeDirectiveDispatched(ws1: string, p: string, ws2: string)
    requires All(ws1, IsSpace) && All(p, IsActionChar) && All(ws2, IsSpace)
    requires forall j: nat :: !OccursAt(p, GenImageTag, j)
    ensures Dispatched(ActionOpen + ws1 + (GenImageTag + p) + ws2 + "]") == [p]
  {
    var action := GenImageTag + p;
    var text := ActionOpen + ws1 + action + ws2 + "]";
    var b := |ActionOpen| + |ws1|;
    var c := b + |action|;
    SpaceFreeDirectiveShape(ws1, p, ws2);
    WholeDirectivePrompts(text, b, c);
    PromptOfSingleTag(action, p);
  }

  /** The layout of a space-free directive as the matcher sees it. */
  lemma SpaceFreeDirectiveShape(ws1: string, p: string, ws2: string)
    requires All(ws1, IsSpace) && All(p, IsActionChar) && All(ws2, IsSpace)
    ensures var text := ActionOpen + ws1 + (GenImageTag + p) + ws2 + "]";
      var b := |ActionOpen| + |ws1|;
      var c := b + |GenImageTag + p|;
      && Shape(text, 0, b, c, |text| - 1)
      && text[b..c] == GenImageTag + p
  {
    var action := GenImageTag + p;
    var text := ActionOpen + ws1 + action + ws2 + "]";
    assert text == [] + ActionOpen + ws1 + action + ws2 + "]";
    forall k | 0 <= k < |action| ensures IsActionChar(action[k]) {
      if k >= |GenImageTag| { assert action[k] == p[k - |GenImageTag|]; }
    }
    Layout(text, [], ws1, action, ws2, "]");
    LayoutRuns(text, [], ws1, action, ws2, "]");
    var b := |ActionOpen| + |ws1|;
    var c := b + |action|;
    assert text[b..c] == action;
  }

  /** In a space-free directive the only brackets are the first and the
      last character. */
  lemma DirectiveBrackets(ws1: string, p: string, ws2: string)
    requires All(ws1, IsSpace) && All(p, IsActionChar) && All(ws2, IsSpace)
    ensures var text := ActionOpen + ws1 + (GenImageTag + p) + ws2 + "]";
      forall j :: 0 <= j < |text| ==> (text[j] == '[' ==> j == 0) && (text[j] == ']' ==> j == |text| - 1)
  {
    var action := GenImageTag + p;
    var text := ActionOpen + ws1 + action + ws2 + "]";
    assert text == [] + ActionOpen + ws1 + action + ws2 + "]";
    Layout(text, [], ws1, action, ws2, "]");
    forall j | 0 <= j < |text| ensures (text[j] == '[' ==> j == 0) && (text[j] == ']' ==> j == |text| - 1) {
      if 0 < j < |ActionOpen| {
        assert text[0..|ActionOpen|][j] == text[j];
      } else if |ActionOpen| + |ws1| <= j < |ActionOpen| + |ws1| + |GenImageTag| {
        assert action[j - |ActionOpen| - |ws1|] == GenImageTag[j - |ActionOpen| - |ws1|];
      } else if |ActionOpen| + |ws1| + |GenImageTag| <= j < |ActionOpen| + |ws1| + |action| {
        assert action[j - |ActionOpen| - |ws1|] == p[j - |ActionOpen| - |ws1| - |GenImageTag|];
      }
    }
  }

  /** A fragment with no closing bracket dispatches nothing. */
  lemma NoClosingBracketNothingDispatched(text: string)
    requires forall j :: 0 <= j < |text| ==> text[j] != ']'
    ensures Dispatched(text) == []
  {
    forall j | 0 <= j <= |text| ensures MatchAt(text, j).None? {
      if MatchAt(text, j).Some? {
        MatchNeedsClosingBracket(text, j);
      }
    }
    NoMatchNothingDispatched(text);
  }

  /** A fragment with no opening bracket dispatches nothing. */
  lemma NoOpeningBracketNothingDispatched(text: string)
    requires forall j :: 0 <= j < |text| ==> text[j] != '['
    ensures Dispatched(text) == []
  {
    forall j | 0 <= j <= |text| ensures MatchAt(text, j).None? {
      if MatchAt(text, j).Some? {
        MatchStartsAtBracket(text, j);
      }
    }
    NoMatchNothingDispatched(text);
  }

  /** A directive cut between two transcript fragments is seen in neither,
      whatever text without `[` surrounds it: the head's only opening bracket
      has no closing one after it, the tail has no opening bracket, and each
      fragment is scanned on its own. */
  lemma CutDirectiveUnseen(pre: string, ws1: string, p: string, ws2: string, post: string, k: nat)
    requires All(ws1, IsSpace) && All(p, IsActionChar) && All(ws2, IsSpace)
    requires forall j :: 0 <= j < |pre| ==> pre[j] != '['
    requires forall j :: 0 <= j < |post| ==> post[j] != '['
    requires 0 < k < |ActionOpen + ws1 + (GenImageTag + p) + ws2 + "]"|
    ensures var text := ActionOpen + ws1 + (GenImageTag + p) + ws2 + "]";
      Dispatched(pre + text[..k]) == [] && Dispatched(text[k..] + post) == []
  {
    var text := ActionOpen + ws1 + (GenImageTag + p) + ws2 + "]";
    DirectiveBrackets(ws1, p, ws2);
    CutHeadUnseen(pre, text, k);
    CutTailUnseen(text, k, post);
  }

  /** The head of a cut directive, after text without `[`, dispatches
      nothing: its one opening bracket has no closing bracket after it. */
  lemma CutHeadUnseen(pre: string, text: string, k: nat)
    requires k < |text|
    requires forall j :: 0 <= j < |pre| ==> pre[j] != '['
    requires forall j :: 0 <= j < |text| ==> (text[j] == '[' ==> j == 0) && (text[j] == ']' ==> j == |text| - 1)
    ensures Dispatched(pre + text[..k]) == []
  {
    var head := pre + text[..k];
    forall j | 0 <= j < |head| && j != |pre| ensures head[j] != '[' {
      if j < |pre| {
        assert head[j] == pre[j];
      } else {
        assert head[j] == text[j - |pre|];
      }
    }
    forall d | |pre| < d < |head| ensures head[d] != ']' {
      assert head[d] == text[d - |pre|];
    }
    ClosingBracketAfterMatch(head, |pre|);
    LoneFailedBracket(head, |pre|);
  }

  /** The tail of a cut directive, before text without `[`, dispatches
      nothing: it holds no opening bracket. */
  lemma CutTailUnseen(text: string, k: nat, post: string)
    requires 0 < k <= |text|
    requires forall j :: 0 <= j < |post| ==> post[j] != '['
    requires forall j :: 0 <= j < |text| ==> (text[j] == '[' ==> j == 0)
    ensures Dispatched(text[k..] + post) == []
  {
    var tail := text[k..] + post;
    forall j | 0 <= j < |tail| ensures tail[j] != '[' {
      if j < |text| - k {
        assert tail[j] == text[k + j];
      } else {
        assert tail[j] == post[j - (|text| - k)];
      }
    }
    NoOpeningBracketNothingDispatched(tail);
  }

  /** Wherever a match starts, a closing bracket follows. */
  lemma ClosingBracketAfterMatch(text: string, i: nat)
    requires i <= |text|
    ensures MatchAt(text, i).Some? ==> exists d :: i < d < |text| && text[d] == ']'
  {
    if MatchAt(text, i).Some? {
      MatchNeedsClosingBracket(text, i);
    }
  }

  /** The tag exactly as the assistant's system prompt spells it
      (App.tsx line 26) dispatches nothing. */
  lemma SystemPromptTagIgnored()
    ensures Dispatched("[ACTION: GEN_IMAGE: prompt]") == []
  {
    var text := "[ACTION: GEN_IMAGE: prompt]";
    assert text == [] + ActionOpen + " " + GenImageTag + " " + "prompt]";
    assert All(" ", IsSpace);
    SpacedPromptNotDispatched([], " ", " ", "prompt]");
  }

  /** A Bengali image request in the system prompt's form, the text before
      its directive, and what follows the tag's space. */
  const BengaliLeadIn := "ছবি তৈরি করছি "
  const BengaliArgument := "একটি লাল গোলাপ]"
  const BengaliRequest := BengaliLeadIn + "[ACTION: GEN_IMAGE: " + BengaliArgument

  /** How the Bengali request is laid out. */
  lemma BengaliRequestLayout()
    ensures BengaliRequest == BengaliLeadIn + ActionOpen + " " + GenImageTag + " " + BengaliArgument
  {
    assert "[ACTION: GEN_IMAGE: " == ActionOpen + " " + GenImageTag + " ";
  }

  /** Neither the lead-in nor the argument holds an opening bracket. */
  lemma BengaliPiecesWithoutBracket()
    ensures forall k :: 0 <= k < |BengaliLeadIn| ==> BengaliLeadIn[k] != '['
    ensures forall k :: 0 <= k < |BengaliArgument| ==> BengaliArgument[k] != '['
  {
    forall k | 0 <= k < |BengaliLeadIn| ensures BengaliLeadIn[k] != '[' {
      assert BengaliLeadIn[k] in "ছবি তৈরি করছি ";
    }
    forall k | 0 <= k < |BengaliArgument| ensures BengaliArgument[k] != '[' {
      assert BengaliArgument[k] in "একটি লাল গোলাপ]";
    }
  }

  /** A Bengali request in that form dispatches nothing either. */
  lemma BengaliRequestIgnored()
    ensures Dispatched(BengaliRequest) == []
  {
    BengaliRequestLayout();
    BengaliPiecesWithoutBracket();
    assert All(" ", IsSpace);
    SpacedPromptNotDispatched(BengaliLeadIn, " ", " ", BengaliArgument);
  }

  /** Without the space after the tag the request goes through. */
  lemma SpaceFreeCatDispatched()
    ensures Dispatched("[ACTION: GEN_IMAGE:CAT]") == ["CAT"]
  {
    var text := "[ACTION: GEN_IMAGE:CAT]";
    assert text == ActionOpen + " " + (GenImageTag + "CAT") + [] + "]";
    assert All(" ", IsSpace) && All("CAT", IsActionChar) && All([], IsSpace);
    SpaceFreeDirectiveDispatched(" ", "CAT", []);
  }
}
