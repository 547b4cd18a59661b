/** The dialogue system object: the fields its handlers reassign, and one method per handler.
    Each method is proved to change the state exactly as the matching transition of
    DialogueMachine does. The text widget, the panels and the choice buttons are fields. */
module Dialogue {
  import opened Wrappers
  import opened Data
  import opened GameState
  import M = DialogueMachine

  class DialogueSystem {
    /** The game state whose flags gate and receive choices (the singleton, passed in). */
    const gameState: GameStateManager
    const autoAdvance: bool

    var currentDialogue: Option<DialogueData>
    var currentNode: Option<DialogueNode>
    var isDisplayingText: bool
    var speakerNameText: string
    var dialogueText: string
    var dialoguePanelActive: bool
    var choicePanelActive: bool
    /** The choice each live choice button is bound to, in button order. */
    var activeChoiceButtons: seq<Choice>
    var textDisplayCoroutine: M.Animation

    function View(): M.View
      reads this, gameState
    {
      M.View(currentDialogue, currentNode, isDisplayingText, speakerNameText, dialogueText,
             dialoguePanelActive, choicePanelActive, activeChoiceButtons, textDisplayCoroutine,
             gameState.flags)
    }

    ghost predicate Valid()
      reads this, gameState
    {
      M.WellFormed(View())
    }

    constructor (gameState: GameStateManager, autoAdvance: bool := false)
      ensures this.gameState == gameState && this.autoAdvance == autoAdvance
      ensures Valid() && View() == M.Initial(gameState.flags)
    {
      this.gameState, this.autoAdvance := gameState, autoAdvance;
      currentDialogue, currentNode := None, None;
      isDisplayingText, speakerNameText, dialogueText := false, "", "";
      dialoguePanelActive, choicePanelActive := false, false;
      activeChoiceButtons, textDisplayCoroutine := [], M.Stopped;
    }

    /** The per-frame handler for the Space/Enter key. */
    method Update(continuePressed: bool)
      requires Valid()
      modifies this
      ensures Valid() && View() == M.Update(old(View()), autoAdvance, continuePressed)
    {
      if continuePressed {
        if isDisplayingText {
          SkipTextAnimation();
        } else if currentNode.Some? && |currentNode.value.choices| == 0 {
          AdvanceDialogue();
        }
      }
    }

    method StartDialogue(dialogue: DialogueData, startNodeId: int := 0)
      requires Valid()
      modifies this
      ensures Valid() && View() == M.StartDialogue(old(View()), autoAdvance, dialogue, startNodeId)
    {
      currentDialogue := Some(dialogue);
      currentNode := GetNode(dialogue, startNodeId);
      if currentNode.None? {
        return;
      }
      dialoguePanelActive := true;
      DisplayCurrentNode();
    }

    method DisplayCurrentNode()
      requires Valid()
      modifies this
      ensures Valid() && View() == M.DisplayCurrentNode(old(View()), autoAdvance)
    {
      if currentNode.None? {
        EndDialogue();
        return;
      }
      var line := currentNode.value.dialogue;
      speakerNameText := line.speakerName;
      // The running coroutine is replaced; the new one runs at once up to its first yield.
      textDisplayCoroutine := M.Typing(line.dialogueText, 0);
      isDisplayingText := true;
      dialogueText := "";
      ContinueTyping();
    }

    /** One resumption of the animation coroutine, after a typing or auto-advance delay. */
    method ResumeTextAnimation()
      requires Valid()
      modifies this
      ensures Valid() && View() == M.ResumeReveal(old(View()), autoAdvance)
    {
      match textDisplayCoroutine
      case Stopped =>
      case Typing(_, _) =>
        ContinueTyping();
      case AwaitingAutoAdvance =>
        textDisplayCoroutine := M.Stopped;
        AdvanceDialogue();
    }

    /** The animation loop's body: append the next character, or leave the loop. */
    method ContinueTyping()
      requires Valid() && textDisplayCoroutine.Typing?
      modifies this
      ensures Valid() && View() == M.ContinueTyping(old(View()), autoAdvance)
    {
      var line, k := textDisplayCoroutine.line, textDisplayCoroutine.shown;
      if k < |line| {
        dialogueText := dialogueText + [line[k]];
        textDisplayCoroutine := M.Typing(line, k + 1);
      } else {
        FinishTextAnimation();
      }
    }

    /** What the coroutine does after its animation loop. */
    method FinishTextAnimation()
      requires Valid()
      modifies this
      ensures Valid() && View() == M.FinishReveal(old(View()), autoAdvance)
    {
      isDisplayingText := false;
      if currentNode.None? {
        // currentNode.choices throws: the coroutine ends here
        textDisplayCoroutine := M.Stopped;
        return;
      }
      if |currentNode.value.choices| > 0 {
        textDisplayCoroutine := M.Stopped;
        ShowChoices();
      } else if autoAdvance {
        textDisplayCoroutine := M.AwaitingAutoAdvance;
      } else {
        textDisplayCoroutine := M.Stopped;
      }
    }

    method SkipTextAnimation()
      requires Valid()
      modifies this
      ensures Valid() && View() == M.SkipTextAnimation(old(View()))
    {
      textDisplayCoroutine := M.Stopped;
      if currentNode.None? {
        // currentNode.dialogue throws
        return;
      }
      dialogueText := currentNode.value.dialogue.dialogueText;
      isDisplayingText := false;
      if |currentNode.value.choices| > 0 {
        ShowChoices();
      }
    }

    /** Replaces the buttons by one per choice whose required flags all hold. */
    method ShowChoices()
      requires currentNode.Some?
      modifies this
      ensures View() == M.ShowChoices(old(View()))
    {
      activeChoiceButtons := [];
      choicePanelActive := true;
      var choices := currentNode.value.choices;
      var buttons: seq<Choice> := [];
      for i := 0 to |choices|
        modifies {}
        invariant buttons == M.VisibleChoices(gameState.flags, choices[..i])
      {
        assert choices[..i + 1][..i] == choices[..i];
        var shown := gameState.HasAllFlags(choices[i].requiredFlags);
        if shown {
          buttons := buttons + [choices[i]];
        }
      }
      assert choices[..|choices|] == choices;
      activeChoiceButtons := buttons;
    }

    /** The listener of a choice button. */
    method OnChoiceSelected(choice: Choice)
      requires Valid()
      modifies this, gameState
      ensures Valid() && View() == M.OnChoiceSelected(old(View()), autoAdvance, choice)
      ensures gameState.intVariables == old(gameState.intVariables)
      ensures gameState.stringVariables == old(gameState.stringVariables)
    {
      if choice.flagsToSet.Some? {
        var names := choice.flagsToSet.value;
        for i := 0 to |names|
          modifies gameState
          invariant gameState.flags == SetFlags(old(gameState.flags), names[..i])
          invariant gameState.intVariables == old(gameState.intVariables)
          invariant gameState.stringVariables == old(gameState.stringVariables)
        {
          assert names[..i + 1][..i] == names[..i];
          gameState.SetFlag(names[i]);
        }
        assert names[..|names|] == names;
      }
      choicePanelActive := false;
      if currentDialogue.None? {
        // currentDialogue.GetNode throws
        return;
      }
      currentNode := GetNode(currentDialogue.value, choice.nextDialogueIndex);
      DisplayCurrentNode();
    }

    /** A click on the i-th choice button; a hidden panel's buttons receive no clicks. */
    method ClickChoiceButton(i: nat)
      requires Valid() && i < |activeChoiceButtons|
      modifies this, gameState
      ensures Valid() && View() == M.ClickChoiceButton(old(View()), autoAdvance, i)
      ensures gameState.intVariables == old(gameState.intVariables)
      ensures gameState.stringVariables == old(gameState.stringVariables)
    {
      if choicePanelActive {
        OnChoiceSelected(activeChoiceButtons[i]);
      }
    }

    method AdvanceDialogue()
      requires Valid()
      modifies this
      ensures Valid() && View() == M.AdvanceDialogue(old(View()), autoAdvance)
    {
      if currentNode.None? {
        // currentNode.nextNodeId throws
        return;
      }
      if currentNode.value.nextNodeId >= 0 {
        currentNode := GetNode(currentDialogue.value, currentNode.value.nextNodeId);
        DisplayCurrentNode();
      } else {
        EndDialogue();
      }
    }

    method EndDialogue()
      requires Valid()
      modifies this
      ensures Valid() && View() == M.EndDialogue(old(View()))
    {
      dialoguePanelActive := false;
      choicePanelActive := false;
      currentDialogue := None;
      currentNode := None;
    }

    /** A dialogue is active while one is current, whether or not a node is shown. */
    predicate IsDialogueActive()
      reads this, gameState
      ensures IsDialogueActive() <==> M.IsDialogueActive(View())
    {
      currentDialogue.Some?
    }
  }
}
