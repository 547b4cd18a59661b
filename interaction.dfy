/** Clickable scene objects gated by a one-time-use flag and required flags, and the scene's
    registry of interactive elements. */
module Interaction {
  import opened Wrappers
  import opened Data
  import opened GameState
  import Dialogue
  import M = DialogueMachine

  /** CanInteract's answer: not a used one-time object, and every required flag set. */
  predicate Interactable(oneTimeUse: bool, hasBeenUsed: bool, flags: map<string, bool>,
                         requiredFlags: Option<seq<string>>)
  {
    !(oneTimeUse && hasBeenUsed) && AllFlagsSet(flags, requiredFlags)
  }

  class InteractableObject {
    const interactionName: string
    const dialogueToTrigger: Option<DialogueData>
    const oneTimeUse: bool
    const requiredFlags: Option<seq<string>>
    var hasBeenUsed: bool

    constructor (interactionName: string, dialogueToTrigger: Option<DialogueData>,
                 oneTimeUse: bool := false, requiredFlags: Option<seq<string>> := None)
      ensures this.interactionName == interactionName && this.dialogueToTrigger == dialogueToTrigger
      ensures this.oneTimeUse == oneTimeUse && this.requiredFlags == requiredFlags
      ensures !hasBeenUsed
    {
      this.interactionName, this.dialogueToTrigger := interactionName, dialogueToTrigger;
      this.oneTimeUse, this.requiredFlags := oneTimeUse, requiredFlags;
      hasBeenUsed := false;
    }

    /** False for a used one-time object and when some required flag is unset; a null or
        empty list of required flags imposes nothing. */
    method CanInteract(gameState: GameStateManager) returns (r: bool)
      ensures r == Interactable(oneTimeUse, hasBeenUsed, gameState.flags, requiredFlags)
      ensures oneTimeUse && hasBeenUsed ==> !r
      ensures r && requiredFlags.Some? ==>
                forall i :: 0 <= i < |requiredFlags.value| ==> gameState.GetFlag(requiredFlags.value[i])
    {
      if oneTimeUse && hasBeenUsed {
        return false;
      }
      if requiredFlags.Some? && |requiredFlags.value| > 0 {
        var names := requiredFlags.value;
        for i := 0 to |names|
          invariant forall j :: 0 <= j < i ==> LookupFlag(gameState.flags, names[j])
        {
          if !gameState.GetFlag(names[i]) {
            return false;
          }
        }
      }
      return true;
    }

    /** Does nothing unless CanInteract holds; then starts the dialogue to trigger, if there
        is one and a dialogue system exists, and marks a one-time object used. */
    method Interact(gameState: GameStateManager, dialogueSystem: Dialogue.DialogueSystem?)
      requires dialogueSystem != null ==> dialogueSystem.Valid()
      requires dialogueSystem != null ==> dialogueSystem.gameState == gameState
      modifies this, dialogueSystem
      ensures !old(Interactable(oneTimeUse, hasBeenUsed, gameState.flags, requiredFlags)) ==>
                hasBeenUsed == old(hasBeenUsed) &&
                (dialogueSystem != null ==> dialogueSystem.View() == old(dialogueSystem.View()))
      ensures old(Interactable(oneTimeUse, hasBeenUsed, gameState.flags, requiredFlags)) ==>
                hasBeenUsed == (oneTimeUse || old(hasBeenUsed))
      ensures oneTimeUse && old(Interactable(oneTimeUse, hasBeenUsed, gameState.flags, requiredFlags)) ==>
                !Interactable(oneTimeUse, hasBeenUsed, gameState.flags, requiredFlags)
      ensures dialogueSystem != null ==>
                && dialogueSystem.Valid()
                && dialogueSystem.View() ==
                   if old(Interactable(oneTimeUse, hasBeenUsed, gameState.flags, requiredFlags)) && dialogueToTrigger.Some?
                   then M.StartDialogue(old(dialogueSystem.View()), dialogueSystem.autoAdvance, dialogueToTrigger.value)
                   else old(dialogueSystem.View())
      ensures gameState.flags == old(gameState.flags)
    {
      var ok := CanInteract(gameState);
      if !ok {
        return;
      }
      if dialogueToTrigger.Some? && dialogueSystem != null {
        dialogueSystem.StartDialogue(dialogueToTrigger.value);
      }
      if oneTimeUse {
        hasBeenUsed := true;
      }
    }

    method ResetInteraction()
      modifies this
      ensures !hasBeenUsed
    {
      hasBeenUsed := false;
    }
  }

  class SceneInteractionManager {
    var sceneElements: array<InteractiveElement>

    constructor (sceneElements: array<InteractiveElement>)
      ensures this.sceneElements == sceneElements
    {
      this.sceneElements := sceneElements;
    }

    /** Copies the elements into a new array one longer with the new element last. */
    method RegisterInteractiveElement(element: InteractiveElement)
      modifies this
      ensures fresh(sceneElements)
      ensures sceneElements.Length == old(sceneElements.Length) + 1
      ensures sceneElements[..] == old(sceneElements[..]) + [element]
    {
      var newArray := new InteractiveElement[sceneElements.Length + 1];
      for i := 0 to sceneElements.Length
        modifies newArray
        invariant newArray[..i] == sceneElements[..i]
      {
        newArray[i] := sceneElements[i];
      }
      newArray[sceneElements.Length] := element;
      sceneElements := newArray;
    }
  }
}
