/** The dialogue records of a visual novel: a line of dialogue, a choice and a node of the
    dialogue graph, and the container asset that holds a list of nodes. */
module Data {
  import opened Wrappers
  import Lists

  /** The node id that marks the end of a dialogue. */
  const EndOfDialogue: int := -1

  /** One line of dialogue. The voice clip and the per-character typing delay are not part
      of this model. */
  datatype DialogueLine = DialogueLine(
    speakerName: string,
    dialogueText: string,
    characterSprite: string,
    backgroundSprite: string)

  /** A choice the player can make. nextDialogueIndex is the id of the target node (not a
      position in the node list). A null list is None. */
  datatype Choice = Choice(
    choiceText: string,
    nextDialogueIndex: int,
    requiredFlags: Option<seq<string>>,
    flagsToSet: Option<seq<string>>)

  /** A node of the dialogue graph. Unless set, nextNodeId is the end-of-dialogue id. */
  datatype DialogueNode = DialogueNode(
    nodeId: int,
    dialogue: DialogueLine,
    choices: seq<Choice>,
    nextNodeId: int := EndOfDialogue,
    sceneTransition: string := "")

  /** A complete dialogue asset. Nothing checks that the ids nodes and choices point at exist. */
  datatype DialogueData = DialogueData(dialogueName: string, nodes: seq<DialogueNode>)

  /** An interactive element registered with a scene (its screen position is not modelled). */
  datatype InteractiveElement = InteractiveElement(
    elementName: string,
    description: string,
    associatedDialogue: Option<DialogueData>,
    isOneTimeUse: bool,
    requiredFlags: Option<seq<string>>)

  /** A node left at its default next id ends the dialogue when advanced. */
  predicate EndsDialogue(n: DialogueNode) {
    n.nextNodeId < 0
  }

  /** DialogueData.GetNode: the first node of the list whose id is nodeId, or null. */
  function GetNode(d: DialogueData, nodeId: int): (r: Option<DialogueNode>)
    ensures r.Some? ==> r.value.nodeId == nodeId && r.value in d.nodes
    ensures r.None? <==> forall i :: 0 <= i < |d.nodes| ==> d.nodes[i].nodeId != nodeId
  {
    Lists.Find(d.nodes, (n: DialogueNode) => n.nodeId == nodeId)
  }

  /** With duplicate ids the node found is the first one in list order. */
  lemma GetNodeFindsFirst(d: DialogueData, nodeId: int, k: nat)
    requires k < |d.nodes| && d.nodes[k].nodeId == nodeId
    requires forall j :: 0 <= j < k ==> d.nodes[j].nodeId != nodeId
    ensures GetNode(d, nodeId) == Some(d.nodes[k])
  {
  }

  /** A node built without an explicit next id ends the dialogue. */
  lemma DefaultNodeEndsDialogue(id: int, line: DialogueLine, choices: seq<Choice>)
    ensures EndsDialogue(DialogueNode(id, line, choices))
    ensures DialogueNode(id, line, choices).nextNodeId == -1
  {
  }
}
