/** The dialogue traversal state machine as pure transitions over a snapshot of the dialogue
    system's state. The animation coroutine is a resumable step: each resumption appends one
    character, and a final resumption after the last character runs the code that follows
    the animation loop. A null dereference ends the handler it happens in, and what that handler
    changed before it persists. */
module DialogueMachine {
  import opened Wrappers
  import opened Data
  import opened GameState

  /** Where the animation coroutine stands. Typing(line, k): k characters of line appended and
      the coroutine suspended; AwaitingAutoAdvance: the line is done and the coroutine waits
      for the auto-advance delay; Stopped: no live coroutine. */
  datatype Animation = Stopped | Typing(line: string, shown: nat) | AwaitingAutoAdvance

  /** The dialogue system's state. choiceButtons: the choice each live button is bound to;
      flags: the flag dictionary of the game state. */
  datatype View = View(
    currentDialogue: Option<DialogueData>,
    currentNode: Option<DialogueNode>,
    isDisplayingText: bool,
    speakerText: string,
    dialogueText: string,
    dialoguePanelActive: bool,
    choicePanelActive: bool,
    choiceButtons: seq<Choice>,
    animation: Animation,
    flags: map<string, bool>)

  /** The state before any dialogue is started. */
  function Initial(flags: map<string, bool>): View {
    View(None, None, false, "", "", false, false, [], Stopped, flags)
  }

  /** The invariant the transitions keep: a current node belongs to a current dialogue, and
      while a line is being revealed the text shown is the part revealed so far. */
  predicate WellFormed(v: View) {
    && (v.currentNode.Some? ==> v.currentDialogue.Some?)
    && (v.animation.Typing? ==>
          v.isDisplayingText && v.animation.shown <= |v.animation.line|
          && v.dialogueText == v.animation.line[..v.animation.shown])
  }

  predicate IsDialogueActive(v: View) {
    v.currentDialogue.Some?
  }

  /** The choices ShowChoices puts on buttons: those whose required flags all hold, in order. */
  function VisibleChoices(flags: map<string, bool>, choices: seq<Choice>): seq<Choice> {
    if |choices| == 0 then []
    else
      var init, last := choices[..|choices| - 1], choices[|choices| - 1];
      VisibleChoices(flags, init) + (if AllFlagsSet(flags, last.requiredFlags) then [last] else [])
  }

  function EndDialogue(v: View): (r: View)
    ensures WellFormed(v) ==> WellFormed(r)
  {
    v.(dialoguePanelActive := false, choicePanelActive := false,
       currentDialogue := None, currentNode := None)
  }

  function ShowChoices(v: View): (r: View)
    requires v.currentNode.Some?
    ensures WellFormed(v) ==> WellFormed(r)
  {
    v.(choicePanelActive := true,
       choiceButtons := VisibleChoices(v.flags, v.currentNode.value.choices))
  }

  /** The code after the animation loop: stop displaying, then choices or auto-advance. */
  function FinishReveal(v: View, autoAdvance: bool): (r: View)
    ensures !r.isDisplayingText && !r.animation.Typing?
    ensures WellFormed(v) ==> WellFormed(r)
  {
    var v1 := v.(isDisplayingText := false);
    if v1.currentNode.None? then v1.(animation := Stopped)
    else if |v1.currentNode.value.choices| > 0 then ShowChoices(v1.(animation := Stopped))
    else if autoAdvance then v1.(animation := AwaitingAutoAdvance)
    else v1.(animation := Stopped)
  }

  /** Resuming the coroutine while it types: the next character, or the finish. */
  function ContinueTyping(v: View, autoAdvance: bool): (r: View)
    requires v.animation.Typing?
    ensures WellFormed(v) ==> WellFormed(r)
  {
    var line, k := v.animation.line, v.animation.shown;
    if k < |line| then
      assert line[..k + 1] == line[..k] + [line[k]];
      v.(dialogueText := v.dialogueText + [line[k]], animation := Typing(line, k + 1))
    else FinishReveal(v, autoAdvance)
  }

  /** DisplayCurrentNode: end on a missing node; otherwise show the speaker, replace any
      running coroutine and run the new one up to its first suspension. */
  function DisplayCurrentNode(v: View, autoAdvance: bool): (r: View)
    ensures WellFormed(v) ==> WellFormed(r)
  {
    if v.currentNode.None? then EndDialogue(v)
    else
      var line := v.currentNode.value.dialogue;
      ContinueTyping(v.(speakerText := line.speakerName, isDisplayingText := true,
                        dialogueText := "", animation := Typing(line.dialogueText, 0)), autoAdvance)
  }

  /** StartDialogue: the dialogue becomes current even when the start node is missing. */
  function StartDialogue(v: View, autoAdvance: bool, dialogue: DialogueData, startNodeId: int := 0): (r: View)
    ensures WellFormed(v) ==> WellFormed(r)
  {
    var v1 := v.(currentDialogue := Some(dialogue), currentNode := GetNode(dialogue, startNodeId));
    if v1.currentNode.None? then v1
    else DisplayCurrentNode(v1.(dialoguePanelActive := true), autoAdvance)
  }

  /** SkipTextAnimation: stop the coroutine, show the whole line, show choices if any. */
  function SkipTextAnimation(v: View): (r: View)
    ensures WellFormed(v) ==> WellFormed(r)
  {
    var v1 := v.(animation := Stopped);
    if v1.currentNode.None? then v1
    else
      var node := v1.currentNode.value;
      var v2 := v1.(dialogueText := node.dialogue.dialogueText, isDisplayingText := false);
      if |node.choices| > 0 then ShowChoices(v2) else v2
  }

  /** OnChoiceSelected: set the choice's flags, hide the choice panel, jump to its target. */
  function OnChoiceSelected(v: View, autoAdvance: bool, choice: Choice): (r: View)
    ensures WellFormed(v) ==> WellFormed(r)
  {
    var flags := if choice.flagsToSet.Some? then SetFlags(v.flags, choice.flagsToSet.value) else v.flags;
    var v1 := v.(flags := flags, choicePanelActive := false);
    if v1.currentDialogue.None? then v1
    else DisplayCurrentNode(v1.(currentNode := GetNode(v1.currentDialogue.value, choice.nextDialogueIndex)), autoAdvance)
  }

  /** A click on the i-th choice button; buttons on a hidden panel receive no clicks. */
  function ClickChoiceButton(v: View, autoAdvance: bool, i: nat): (r: View)
    requires i < |v.choiceButtons|
    ensures WellFormed(v) ==> WellFormed(r)
  {
    if v.choicePanelActive then OnChoiceSelected(v, autoAdvance, v.choiceButtons[i]) else v
  }

  /** AdvanceDialogue: go to the next node when its id is non-negative, else end. */
  function AdvanceDialogue(v: View, autoAdvance: bool): (r: View)
    ensures WellFormed(v) ==> WellFormed(r)
  {
    if v.currentNode.None? then v
    else if !EndsDialogue(v.currentNode.value) then
      if v.currentDialogue.None? then v
      else DisplayCurrentNode(v.(currentNode := GetNode(v.currentDialogue.value, v.currentNode.value.nextNodeId)), autoAdvance)
    else EndDialogue(v)
  }

  /** One resumption of the animation coroutine (a typing or auto-advance delay has elapsed). */
  function ResumeReveal(v: View, autoAdvance: bool): (r: View)
    ensures WellFormed(v) ==> WellFormed(r)
  {
    match v.animation
    case Stopped => v
    case Typing(_, _) => ContinueTyping(v, autoAdvance)
    case AwaitingAutoAdvance => AdvanceDialogue(v.(animation := Stopped), autoAdvance)
  }

  /** n successive resumptions of the animation coroutine. */
  function Resumptions(v: View, autoAdvance: bool, n: nat): View {
    if n == 0 then v else ResumeReveal(Resumptions(v, autoAdvance, n - 1), autoAdvance)
  }

  /** The frame update: Space or Enter skips the animation, or advances a node without choices. */
  function Update(v: View, autoAdvance: bool, continuePressed: bool): (r: View)
    ensures WellFormed(v) ==> WellFormed(r)
  {
    if !continuePressed then v
    else if v.isDisplayingText then SkipTextAnimation(v)
    else if v.currentNode.Some? && |v.currentNode.value.choices| == 0 then AdvanceDialogue(v, autoAdvance)
    else v
  }
}
