/** What the dialogue state machine promises: choice filtering, the animation, skipping,
    choice selection, advancing and ending, and the key dispatch. */
module DialogueProperties {
  import opened Wrappers
  import opened Data
  import opened GameState
  import opened DialogueMachine

  /** A choice is shown exactly when it is one of the node's choices and all its required
      flags hold, and it is shown as many times as it occurs among them. */
  lemma {:induction false} VisibleChoicesExact(flags: map<string, bool>, choices: seq<Choice>, c: Choice)
    ensures c in VisibleChoices(flags, choices) <==> c in choices && AllFlagsSet(flags, c.requiredFlags)
    ensures multiset(VisibleChoices(flags, choices))[c] ==
            if AllFlagsSet(flags, c.requiredFlags) then multiset(choices)[c] else 0
  {
    if |choices| > 0 {
      var init, last := choices[..|choices| - 1], choices[|choices| - 1];
      assert choices == init + [last];
      VisibleChoicesExact(flags, init, c);
    }
  }

  /** Filtering keeps the node's order: it distributes over concatenation. */
  lemma {:induction false} VisibleChoicesConcat(flags: map<string, bool>, a: seq<Choice>, b: seq<Choice>)
    ensures VisibleChoices(flags, a + b) == VisibleChoices(flags, a) + VisibleChoices(flags, b)
  {
    if |b| > 0 {
      var init, last := b[..|b| - 1], b[|b| - 1];
      assert b == init + [last];
      assert (a + b)[..|a + b| - 1] == a + init;
      VisibleChoicesConcat(flags, a, init);
    } else {
      assert a + b == a;
    }
  }

  /** A choice that requires nothing is always shown; when every choice's flags hold, all
      choices are shown in the node's order. */
  lemma {:induction false} VisibleChoicesAll(flags: map<string, bool>, choices: seq<Choice>)
    requires forall i :: 0 <= i < |choices| ==> AllFlagsSet(flags, choices[i].requiredFlags)
    ensures VisibleChoices(flags, choices) == choices
  {
    if |choices| > 0 {
      var init, last := choices[..|choices| - 1], choices[|choices| - 1];
      assert choices == init + [last];
      VisibleChoicesAll(flags, init);
    }
  }

  /** A start id the dialogue does not hold shows nothing and opens no panel, but the
      dialogue is current, so the dialogue counts as active. */
  lemma StartUnknownNodeStaysActive(v: View, autoAdvance: bool, d: DialogueData, id: int)
    requires GetNode(d, id).None?
    ensures StartDialogue(v, autoAdvance, d, id) == v.(currentDialogue := Some(d), currentNode := None)
    ensures IsDialogueActive(StartDialogue(v, autoAdvance, d, id))
  {
  }

  /** A known start id opens the dialogue panel and displays that node. */
  lemma StartKnownNodeDisplays(v: View, autoAdvance: bool, d: DialogueData, id: int)
    requires GetNode(d, id).Some?
    ensures var r := StartDialogue(v, autoAdvance, d, id);
      && r.currentDialogue == Some(d) && r.currentNode == GetNode(d, id) && r.dialoguePanelActive
      && r.speakerText == GetNode(d, id).value.dialogue.speakerName
  {
  }

  /** One resumption while characters remain appends the next one. */
  lemma ResumeWhileTyping(v: View, autoAdvance: bool)
    requires v.animation.Typing? && v.animation.shown < |v.animation.line|
    ensures ResumeReveal(v, autoAdvance) ==
      v.(dialogueText := v.dialogueText + [v.animation.line[v.animation.shown]],
         animation := Typing(v.animation.line, v.animation.shown + 1))
  {
  }

  /** The resumption after the last character finishes the animation. */
  lemma ResumeAtEnd(v: View, autoAdvance: bool)
    requires v.animation.Typing? && v.animation.shown == |v.animation.line|
    ensures ResumeReveal(v, autoAdvance) == FinishReveal(v, autoAdvance)
  {
  }

  /** During an animation each resumption appends exactly the next character. */
  lemma {:induction false} ResumptionsRevealPrefix(v: View, autoAdvance: bool, n: nat)
    requires WellFormed(v) && v.animation.Typing?
    requires v.animation.shown + n <= |v.animation.line|
    ensures var r := Resumptions(v, autoAdvance, n);
      r == v.(dialogueText := v.animation.line[..v.animation.shown + n],
              animation := Typing(v.animation.line, v.animation.shown + n))
  {
    if n > 0 {
      ResumptionsRevealPrefix(v, autoAdvance, n - 1);
      var line, k := v.animation.line, v.animation.shown;
      var prev := Resumptions(v, autoAdvance, n - 1);
      assert prev == v.(dialogueText := line[..k + n - 1], animation := Typing(line, k + n - 1));
      ResumeWhileTyping(prev, autoAdvance);
      assert line[..k + n] == line[..k + n - 1] + [line[k + n - 1]];
    }
  }

  /** Displaying a node restarts the animation from empty text: after the display and n more
      resumptions the first n + 1 characters of the line are shown, and the line is still
      being displayed. */
  lemma DisplayRevealsPrefix(v: View, autoAdvance: bool, n: nat)
    requires WellFormed(v) && v.currentNode.Some?
    requires n < |v.currentNode.value.dialogue.dialogueText|
    ensures var line := v.currentNode.value.dialogue.dialogueText;
      var r := Resumptions(DisplayCurrentNode(v, autoAdvance), autoAdvance, n);
      r.dialogueText == line[..n + 1] && r.isDisplayingText && r.animation == Typing(line, n + 1)
  {
    var d := DisplayCurrentNode(v, autoAdvance);
    var line := v.currentNode.value.dialogue.dialogueText;
    assert d.animation == Typing(line, 1);
    ResumptionsRevealPrefix(d, autoAdvance, n);
  }

  /** When the animation ends the whole line is shown and it is no longer being displayed; the
      node's choices are then shown if it has any, and otherwise the coroutine waits to
      auto-advance exactly when auto-advance is on. */
  lemma DisplayRevealsWholeLine(v: View, autoAdvance: bool)
    requires WellFormed(v) && v.currentNode.Some?
    ensures var node := v.currentNode.value;
      var r := Resumptions(DisplayCurrentNode(v, autoAdvance), autoAdvance, |node.dialogue.dialogueText|);
      && r.dialogueText == node.dialogue.dialogueText && !r.isDisplayingText
      && r.currentNode == v.currentNode
      && (|node.choices| > 0 ==>
            r.choicePanelActive && r.choiceButtons == VisibleChoices(v.flags, node.choices))
      && (r.animation == AwaitingAutoAdvance <==> |node.choices| == 0 && autoAdvance)
  {
    var node := v.currentNode.value;
    var line := node.dialogue.dialogueText;
    var full := v.(speakerText := node.dialogue.speakerName, isDisplayingText := true,
                   dialogueText := line, animation := Typing(line, |line|));
    RevealReachesWholeLine(v, autoAdvance);
    FinishRevealSchedulesAutoAdvance(full, autoAdvance);
  }

  /** The display and one resumption per character reach the fully typed line and finish. */
  lemma RevealReachesWholeLine(v: View, autoAdvance: bool)
    requires WellFormed(v) && v.currentNode.Some?
    ensures var node := v.currentNode.value;
      var line := node.dialogue.dialogueText;
      var full := v.(speakerText := node.dialogue.speakerName, isDisplayingText := true,
                     dialogueText := line, animation := Typing(line, |line|));
      Resumptions(DisplayCurrentNode(v, autoAdvance), autoAdvance, |line|) == FinishReveal(full, autoAdvance)
  {
    var node := v.currentNode.value;
    var line := node.dialogue.dialogueText;
    var d := DisplayCurrentNode(v, autoAdvance);
    var full := v.(speakerText := node.dialogue.speakerName, isDisplayingText := true,
                   dialogueText := line, animation := Typing(line, |line|));
    if |line| > 0 {
      assert d.animation == Typing(line, 1);
      ResumptionsRevealPrefix(d, autoAdvance, |line| - 1);
      assert line[..|line|] == line;
      assert Resumptions(d, autoAdvance, |line| - 1) == full;
      ResumeAtEnd(full, autoAdvance);
    } else {
      assert line == "";
      assert d == FinishReveal(full, autoAdvance);
    }
  }

  /** Auto-advance is scheduled only when the node has no choices and auto-advance is on. */
  lemma FinishRevealSchedulesAutoAdvance(v: View, autoAdvance: bool)
    ensures FinishReveal(v, autoAdvance).animation == AwaitingAutoAdvance <==>
            v.currentNode.Some? && |v.currentNode.value.choices| == 0 && autoAdvance
    ensures FinishReveal(v, autoAdvance).choicePanelActive <==>
            v.choicePanelActive || (v.currentNode.Some? && |v.currentNode.value.choices| > 0)
  {
  }

  /** Skipping shows the whole line and stops displaying; it shows the choices of a node
      that has some and otherwise leaves the choice buttons alone; it never changes node. */
  lemma SkipShowsWholeLine(v: View)
    requires v.currentNode.Some?
    ensures var node, r := v.currentNode.value, SkipTextAnimation(v);
      && r.dialogueText == node.dialogue.dialogueText && !r.isDisplayingText && r.animation == Stopped
      && r.currentNode == v.currentNode && r.currentDialogue == v.currentDialogue
      && r.choiceButtons == (if |node.choices| > 0 then VisibleChoices(v.flags, node.choices) else v.choiceButtons)
      && r.choicePanelActive == (|node.choices| > 0 || v.choicePanelActive)
  {
  }

  /** Selecting a choice sets every flag it lists before anything else, leaves every other
      flag as it was, and moves to the node GetNode finds for its target; the dialogue stays
      active exactly when that node exists. */
  lemma SelectChoiceSetsFlagsThenJumps(v: View, autoAdvance: bool, c: Choice)
    requires WellFormed(v) && v.currentDialogue.Some?
    ensures var r := OnChoiceSelected(v, autoAdvance, c);
      && (c.flagsToSet.Some? ==> forall f :: f in c.flagsToSet.value ==> LookupFlag(r.flags, f))
      && (forall f :: (c.flagsToSet.None? || f !in c.flagsToSet.value) ==> LookupFlag(r.flags, f) == LookupFlag(v.flags, f))
      && r.currentNode == GetNode(v.currentDialogue.value, c.nextDialogueIndex)
      && (IsDialogueActive(r) <==> GetNode(v.currentDialogue.value, c.nextDialogueIndex).Some?)
  {
    var flags := if c.flagsToSet.Some? then SetFlags(v.flags, c.flagsToSet.value) else v.flags;
    var v1 := v.(flags := flags, choicePanelActive := false);
    DisplayKeepsFlagsAndNode(v1.(currentNode := GetNode(v1.currentDialogue.value, c.nextDialogueIndex)), autoAdvance);
  }

  /** Displaying never changes the flags; it keeps a present node and its dialogue, and
      clears both when the node is missing. */
  lemma DisplayKeepsFlagsAndNode(v: View, autoAdvance: bool)
    ensures var r := DisplayCurrentNode(v, autoAdvance);
      && r.flags == v.flags
      && (v.currentNode.Some? ==> r.currentNode == v.currentNode && r.currentDialogue == v.currentDialogue)
      && (v.currentNode.None? ==> r.currentNode.None? && r.currentDialogue.None?)
  {
  }

  /** Displaying a missing node ends the dialogue. */
  lemma MissingNodeEndsDialogue(v: View, autoAdvance: bool)
    requires v.currentNode.None?
    ensures var r := DisplayCurrentNode(v, autoAdvance);
      r.currentNode.None? && r.currentDialogue.None? && !IsDialogueActive(r)
      && !r.dialoguePanelActive && !r.choicePanelActive
  {
  }

  /** Advancing ends the dialogue on a negative next id or on a next id the dialogue does not
      hold, and otherwise moves to that node. */
  lemma AdvanceEndsOrMoves(v: View, autoAdvance: bool)
    requires WellFormed(v) && v.currentNode.Some?
    ensures var node, r := v.currentNode.value, AdvanceDialogue(v, autoAdvance);
      && (node.nextNodeId < 0 ==> r == EndDialogue(v))
      && (node.nextNodeId >= 0 ==> r.currentNode == GetNode(v.currentDialogue.value, node.nextNodeId))
      && (IsDialogueActive(r) <==> node.nextNodeId >= 0 && GetNode(v.currentDialogue.value, node.nextNodeId).Some?)
  {
  }

  /** Space or Enter skips while the text is being revealed; otherwise it advances a node
      without choices and does nothing at a node with choices or with no node. */
  lemma UpdateDispatch(v: View, autoAdvance: bool)
    ensures v.isDisplayingText ==> Update(v, autoAdvance, true) == SkipTextAnimation(v)
    ensures !v.isDisplayingText && v.currentNode.Some? && |v.currentNode.value.choices| > 0
            ==> Update(v, autoAdvance, true) == v
    ensures !v.isDisplayingText && v.currentNode.None? ==> Update(v, autoAdvance, true) == v
    ensures !v.isDisplayingText && v.currentNode.Some? && |v.currentNode.value.choices| == 0
            ==> Update(v, autoAdvance, true) == AdvanceDialogue(v, autoAdvance)
    ensures Update(v, autoAdvance, false) == v
  {
  }

  /** The invariant holds from the start and through any number of resumptions. */
  lemma {:induction false} ResumptionsKeepWellFormed(v: View, autoAdvance: bool, n: nat)
    requires WellFormed(v)
    ensures WellFormed(Resumptions(v, autoAdvance, n))
    ensures WellFormed(Initial(v.flags))
  {
    if n > 0 {
      ResumptionsKeepWellFormed(v, autoAdvance, n - 1);
    }
  }
}
