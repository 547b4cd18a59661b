# Visual novel framework core, modelled in Dafny

This project models the engine-independent core of a Unity visual-novel framework written in
C#, and proves properties of that model:

- **Dialogue data**: lines, choices, nodes and dialogues, and the node lookup by id.
- **Game state store**: boolean story flags plus integer and string variables, kept in three
  dictionaries, and the all-flags-set check that gates choices and interactions.
- **Dialogue runner**: starting a dialogue, displaying a node and revealing its text one
  character at a time, skipping the reveal, filtering and showing choices, selecting a choice,
  advancing by `nextNodeId`, ending, and the Space/Enter dispatch of the per-frame update.
- **Scene interaction**: the interactable object's gate, its one-time use and its reset, and
  registering an interactive element by growing an array.
- **Character manager**: the on-stage characters map, updated by show, immediate hide, hide-all
  and change-expression.
- **Utilities**: greedy word wrap, file-name sanitising, hexadecimal colour parsing and
  formatting on 8-bit channels, the Fisher–Yates shuffle and the random element choice.

The dialogue runner is one pure state machine, `DialogueMachine`. Each handler is a function
from a `View` (the runner's fields, the on-screen texts, the panels and the game flags) to the
next `View`, and `DialogueProperties` proves what the handlers promise. The class
`Dialogue.DialogueSystem` does the same work imperatively: it has the C# fields, its methods
update them and call the game state store, and each method is proved to equal its function.
A C# null becomes `None`.

An access through a null node stops the C# handler with an exception. Anything the handler
changed before that point stays changed. The model follows this: that handler stops there.

The coroutine that reveals text is an `Animation` state:
- `Typing(line, shown)`: the reveal is running and has shown `shown` characters.
- `AwaitingAutoAdvance`: the reveal waits out the auto-advance delay.
- `Stopped`: no reveal is running.

Each resumption of the coroutine is one step. `StartCoroutine` runs the coroutine's first step
at once, so displaying a node already shows the first character.

The code checks little, and the model follows the code:
- Loading a dialogue runs no id or target checks: a choice or `nextNodeId` naming a missing
  node ends the dialogue when it is reached (`DisplayCurrentNode` with no node).
- `StartDialogue` with a start id that the dialogue does not hold still makes the dialogue
  current, so `IsDialogueActive` is true although nothing is shown.
- Selecting a choice never fails with an invalid-choice error. Only the buttons that are
  shown can be selected, and the target is looked up like any other id.

## Model

| member | source | states |
|---|---|---|
| Lists.Find | Assets/Scripts/Data/DialogueData.cs:57 | List.Find: the first element matching the predicate, `None` exactly when none matches |
| Data.GetNode | Assets/Scripts/Data/DialogueData.cs:55-58 | the node found has the requested id and belongs to the dialogue; `None` (null) exactly when no node has that id |
| Data.GetNodeFindsFirst | Assets/Scripts/Data/DialogueData.cs:55-58 | with duplicate ids, the first node in list order with that id is returned |
| Data.DefaultNodeEndsDialogue | Assets/Scripts/Data/DialogueData.cs:42 | a node built without `nextNodeId` has -1, the end marker |
| GameState.SetFlags | Assets/Scripts/Core/DialogueSystem.cs:184-190 | setting a list of flags makes each of them read true, leaves the others unchanged and adds exactly the listed keys |
| GameState.GameStateManager.SetFlag | Assets/Scripts/Core/GameStateManager.cs:42-46 | stores the value under the name (default true); all other flags, ints and strings unchanged |
| GameState.GameStateManager.GetFlag | Assets/Scripts/Core/GameStateManager.cs:48-51 | a stored flag reads its value; an absent one reads false |
| GameState.GameStateManager.HasAllFlags | Assets/Scripts/Core/GameStateManager.cs:53-64 | true exactly when every listed flag reads true; true for a null or empty list |
| GameState.GameStateManager.SetInt | Assets/Scripts/Core/GameStateManager.cs:68-71 | stores the 32-bit value; everything else unchanged |
| GameState.GameStateManager.GetInt | Assets/Scripts/Core/GameStateManager.cs:73-76 | the stored value, or the default (0) when absent |
| GameState.GameStateManager.SetString | Assets/Scripts/Core/GameStateManager.cs:78-81 | stores the string; everything else unchanged |
| GameState.GameStateManager.GetString | Assets/Scripts/Core/GameStateManager.cs:83-86 | the stored string, or the default ("") when absent |
| GameState.GameStateManager.NewGame | Assets/Scripts/Core/GameStateManager.cs:125-131 | all three stores empty: every flag reads false and every lookup returns its default |
| GameState.SetThenGetFlag | Assets/Scripts/Core/GameStateManager.cs:42-51 | a flag reads what was last set, and setting one flag leaves every other flag's reading alone |
| GameState.AllFlagsSetMeansEach | Assets/Scripts/Core/GameStateManager.cs:53-64 | all flags set means each listed flag reads true |
| DialogueMachine.FinishReveal | Assets/Scripts/Core/DialogueSystem.cs:114-124 | end of the reveal: no longer displaying; choices shown when the node has some; auto-advance scheduled otherwise when it is on |
| DialogueMachine.ContinueTyping | Assets/Scripts/Core/DialogueSystem.cs:106-112 | one resumption of the reveal appends the next character, or ends the reveal after the last |
| DialogueMachine.DisplayCurrentNode | Assets/Scripts/Core/DialogueSystem.cs:70-95 | no node ends the dialogue; otherwise speaker set, text cleared, reveal started |
| DialogueMachine.StartDialogue | Assets/Scripts/Core/DialogueSystem.cs:52-65 | the dialogue becomes current and the start node is looked up; an unknown id stops before the panel opens |
| DialogueMachine.SkipTextAnimation | Assets/Scripts/Core/DialogueSystem.cs:130-143 | stops the reveal and shows the whole line; null node stops after stopping the reveal |
| DialogueMachine.ShowChoices | Assets/Scripts/Core/DialogueSystem.cs:148-176 | the choice panel shows exactly the choices whose required flags all hold |
| DialogueMachine.OnChoiceSelected | Assets/Scripts/Core/DialogueSystem.cs:181-197 | flags set first, panel hidden, then the target node looked up and displayed |
| DialogueMachine.AdvanceDialogue | Assets/Scripts/Core/DialogueSystem.cs:202-213 | a non-negative next id moves to that node, a negative one ends the dialogue |
| DialogueMachine.EndDialogue | Assets/Scripts/Core/DialogueSystem.cs:236-244 | panels hidden, node and dialogue cleared; buttons and any running coroutine left as they are |
| DialogueMachine.ResumeReveal | Assets/Scripts/Core/DialogueSystem.cs:100-125 | one coroutine step: typing continues, a pending auto-advance advances |
| DialogueMachine.Update | Assets/Scripts/Core/DialogueSystem.cs:33-47 | the per-frame key dispatch keeps the invariant |
| DialogueProperties.VisibleChoicesExact | Assets/Scripts/Core/DialogueSystem.cs:156-175 | a choice is shown iff it is the node's and its flags all hold, as many times as it occurs |
| DialogueProperties.VisibleChoicesConcat | Assets/Scripts/Core/DialogueSystem.cs:156-175 | the filter keeps the node's order |
| DialogueProperties.VisibleChoicesAll | Assets/Scripts/Core/DialogueSystem.cs:156-175 | when every choice's flags hold, every choice is shown in order |
| DialogueProperties.StartUnknownNodeStaysActive | Assets/Scripts/Core/DialogueSystem.cs:52-61 | an unknown start id leaves the dialogue current (active) with no node and no panel |
| DialogueProperties.StartKnownNodeDisplays | Assets/Scripts/Core/DialogueSystem.cs:52-65 | a known start id opens the panel and displays that node's speaker |
| DialogueProperties.ResumeWhileTyping | Assets/Scripts/Core/DialogueSystem.cs:106-112 | a resumption before the end of the line appends exactly the next character and changes nothing else |
| DialogueProperties.ResumeAtEnd | Assets/Scripts/Core/DialogueSystem.cs:114-124 | the resumption after the last character runs the code after the loop |
| DialogueProperties.ResumptionsRevealPrefix | Assets/Scripts/Core/DialogueSystem.cs:106-112 | each resumption reveals exactly one more character of the line |
| DialogueProperties.DisplayRevealsPrefix | Assets/Scripts/Core/DialogueSystem.cs:70-112 | after display and n resumptions the first n+1 characters are shown, still displaying |
| DialogueProperties.RevealReachesWholeLine | Assets/Scripts/Core/DialogueSystem.cs:70-125 | as many resumptions as the line has characters end the reveal with the whole line and the speaker shown |
| DialogueProperties.DisplayRevealsWholeLine | Assets/Scripts/Core/DialogueSystem.cs:70-125 | the reveal ends with the whole line shown, choices filtered and shown, auto-advance iff no choices and on |
| DialogueProperties.FinishRevealSchedulesAutoAdvance | Assets/Scripts/Core/DialogueSystem.cs:114-124 | auto-advance is pending iff the node has no choices and auto-advance is on |
| DialogueProperties.SkipShowsWholeLine | Assets/Scripts/Core/DialogueSystem.cs:130-143 | skipping shows the whole line, stops displaying, shows choices, never changes node |
| DialogueProperties.SelectChoiceSetsFlagsThenJumps | Assets/Scripts/Core/DialogueSystem.cs:181-197 | every listed flag reads true, no other flag changes, and the dialogue moves to the target (ending iff it is missing) |
| DialogueProperties.DisplayKeepsFlagsAndNode | Assets/Scripts/Core/DialogueSystem.cs:70-95 | displaying never changes flags; it keeps a present node and its dialogue and clears both when the node is missing |
| DialogueProperties.MissingNodeEndsDialogue | Assets/Scripts/Core/DialogueSystem.cs:72-76 | displaying with no node ends the dialogue |
| DialogueProperties.AdvanceEndsOrMoves | Assets/Scripts/Core/DialogueSystem.cs:202-213 | negative next id ends; otherwise the target node is current, active iff it exists |
| DialogueProperties.UpdateDispatch | Assets/Scripts/Core/DialogueSystem.cs:33-47 | Space/Enter skips while displaying, advances a node without choices, does nothing otherwise |
| DialogueProperties.ResumptionsKeepWellFormed | Assets/Scripts/Core/DialogueSystem.cs:100-125 | the reveal invariant (text is a prefix of the line) holds initially and through any number of steps |
| Dialogue.DialogueSystem.Update | Assets/Scripts/Core/DialogueSystem.cs:33-47 | the runner's new state is the machine's Update |
| Dialogue.DialogueSystem.StartDialogue | Assets/Scripts/Core/DialogueSystem.cs:52-65 | the runner's new state is the machine's StartDialogue |
| Dialogue.DialogueSystem.DisplayCurrentNode | Assets/Scripts/Core/DialogueSystem.cs:70-95 | the runner's new state is the machine's DisplayCurrentNode |
| Dialogue.DialogueSystem.ResumeTextAnimation | Assets/Scripts/Core/DialogueSystem.cs:100-125 | one coroutine step, equal to the machine's ResumeReveal |
| Dialogue.DialogueSystem.ContinueTyping | Assets/Scripts/Core/DialogueSystem.cs:106-112 | equal to the machine's ContinueTyping |
| Dialogue.DialogueSystem.FinishTextAnimation | Assets/Scripts/Core/DialogueSystem.cs:114-124 | equal to the machine's FinishReveal |
| Dialogue.DialogueSystem.SkipTextAnimation | Assets/Scripts/Core/DialogueSystem.cs:130-143 | equal to the machine's SkipTextAnimation |
| Dialogue.DialogueSystem.ShowChoices | Assets/Scripts/Core/DialogueSystem.cs:148-176 | the buttons built by the loop are the machine's filtered choices |
| Dialogue.DialogueSystem.OnChoiceSelected | Assets/Scripts/Core/DialogueSystem.cs:181-197 | the flag-setting loop and jump equal the machine's OnChoiceSelected; ints and strings unchanged |
| Dialogue.DialogueSystem.ClickChoiceButton | Assets/Scripts/Core/DialogueSystem.cs:171-172 | a click on a shown button selects its choice |
| Dialogue.DialogueSystem.AdvanceDialogue | Assets/Scripts/Core/DialogueSystem.cs:202-213 | equal to the machine's AdvanceDialogue |
| Dialogue.DialogueSystem.EndDialogue | Assets/Scripts/Core/DialogueSystem.cs:236-244 | equal to the machine's EndDialogue |
| Dialogue.DialogueSystem.IsDialogueActive | Assets/Scripts/Core/DialogueSystem.cs:249-252 | true exactly when a dialogue is current |
| Interaction.InteractableObject.CanInteract | Assets/Scripts/Core/SceneInteractionManager.cs:167-183 | false once a one-time object is used; otherwise true iff every required flag reads true |
| Interaction.InteractableObject.Interact | Assets/Scripts/Core/SceneInteractionManager.cs:188-218 | nothing happens unless interactable; then the dialogue starts (if there is one and a runner) and a one-time object becomes used |
| Interaction.InteractableObject.ResetInteraction | Assets/Scripts/Core/SceneInteractionManager.cs:223-227 | the object is unused again |
| Interaction.SceneInteractionManager.RegisterInteractiveElement | Assets/Scripts/Core/SceneInteractionManager.cs:137-144 | a fresh array one longer: the old elements in order, then the new one |
| Characters.FindCharacter | Assets/Scripts/Core/CharacterManager.cs:35 | the first character with that name, `None` iff there is none |
| Characters.FindSprite | Assets/Scripts/Core/CharacterManager.cs:63 | the first sprite with that name, `None` iff there is none |
| Characters.CharacterManager.ShowCharacter | Assets/Scripts/Core/CharacterManager.cs:33-75 | unknown name: nothing; otherwise the character is active with the named, previous or default sprite, others unchanged |
| Characters.CharacterManager.HideCharacter | Assets/Scripts/Core/CharacterManager.cs:80-93 | the immediate path: the character becomes inactive, others unchanged |
| Characters.CharacterManager.HideAllCharacters | Assets/Scripts/Core/CharacterManager.cs:98-104 | every on-stage character becomes inactive, nothing else changes |
| Characters.CharacterManager.ChangeExpression | Assets/Scripts/Core/CharacterManager.cs:109-125 | the sprite changes only when the character is on stage and has that expression |
| TextUtils.Split | Assets/Scripts/Utils/VNUtils.cs:20 | String.Split on one character: at least one piece |
| TextUtils.SplitPieces | Assets/Scripts/Utils/VNUtils.cs:20 | no piece holds the separator; pieces are made of the string's characters and no longer than it |
| TextUtils.SplitWithoutSeparator | Assets/Scripts/Utils/VNUtils.cs:20 | a string without the separator splits into itself alone |
| TextUtils.SplitAtSeparator | Assets/Scripts/Utils/VNUtils.cs:20 | a string holding the separator splits into two or more pieces, the first shorter than the string |
| TextUtils.SplitFirstPieceNonEmpty | Assets/Scripts/Utils/VNUtils.cs:20 | a string not starting with the separator has a non-empty first piece |
| TextUtils.JoinSplit | Assets/Scripts/Utils/VNUtils.cs:20 | joining the pieces with the separator gives back the string |
| TextUtils.SplitConcat | Assets/Scripts/Utils/VNUtils.cs:20 | splitting a concatenation fuses the last piece of the first part with the first of the second |
| TextUtils.WrapText | Assets/Scripts/Utils/VNUtils.cs:15-42 | empty text or non-positive maximum: unchanged; otherwise the greedy layout of the words, and every line fits or is one word |
| TextUtils.WrappedIsWellWrapped | Assets/Scripts/Utils/VNUtils.cs:24-39 | every output line is at most the maximum long or holds a single word |
| TextUtils.WrapNeverStartsWithSpace | Assets/Scripts/Utils/VNUtils.cs:26-35 | a wrapped text never starts with a space, and while it is empty the current line length is zero |
| TextUtils.ShortWrap | Assets/Scripts/Utils/VNUtils.cs:26-35 | while the words so far fit (up to the maximum itself, the first word strictly shorter), they are joined by single spaces on one line whose length is tracked exactly |
| TextUtils.WrapWordsInvariant | Assets/Scripts/Utils/VNUtils.cs:24-39 | after any number of words every finished line fits or is one word, and the tracked length bounds the last line |
| TextUtils.ShortTextUnchanged | Assets/Scripts/Utils/VNUtils.cs:15-42 | a text that fits on one line and does not start with a space comes back unchanged, also at exactly the maximum when it holds a space |
| TextUtils.LongFirstWordBreaksFirst | Assets/Scripts/Utils/VNUtils.cs:26-30 | a first word at least as long as the maximum is preceded by a line break, since the test counts a space before the first word too |
| TextUtils.SanitizeFileName | Assets/Scripts/Utils/VNUtils.cs:47-55 | the result is the name without any of the invalid characters |
| TextUtils.WithoutOnlyValid | Assets/Scripts/Utils/VNUtils.cs:47-55 | no removed character is left in the result, and every character of the result is in the name |
| TextUtils.WithoutCounts | Assets/Scripts/Utils/VNUtils.cs:47-55 | every valid character is kept as often as it occurs, every invalid one is dropped |
| TextUtils.WithoutConcat | Assets/Scripts/Utils/VNUtils.cs:47-55 | the order of the kept characters is preserved |
| TextUtils.SanitizeIdempotent | Assets/Scripts/Utils/VNUtils.cs:47-55 | sanitising twice equals sanitising once |
| ColorUtils.HexDigitValue | Assets/Scripts/Utils/VNUtils.cs:115-118 | a value below 16 exactly for 0-9, a-f, A-F |
| ColorUtils.ParseHexByte | Assets/Scripts/Utils/VNUtils.cs:115-118 | byte.Parse with HexNumber on two characters: two digits give 16·hi+lo; a failure needs a non-digit |
| ColorUtils.HexToColor | Assets/Scripts/Utils/VNUtils.cs:101-121 | wrong length gives white; eight digits give the four parsed channels; it throws iff a pair fails to parse |
| ColorUtils.ColorToHex | Assets/Scripts/Utils/VNUtils.cs:126-130 | '#' and eight upper-case hex digits |
| ColorUtils.HexRoundTrip | Assets/Scripts/Utils/VNUtils.cs:101-130 | parsing a formatted colour gives the colour back |
| ColorUtils.SixDigitsAreOpaque | Assets/Scripts/Utils/VNUtils.cs:103-107 | six hex digits, with or without a leading `#`, give alpha 255 |
| ColorUtils.NonHexCharacterThrows | Assets/Scripts/Utils/VNUtils.cs:115-118 | a character that is not a hex digit, not white space and not NUL makes the parse throw |
| RandomUtils.Shuffled | Assets/Scripts/Utils/VNUtils.cs:137-143 | the swap sequence keeps the length |
| RandomUtils.ShuffledIsPermutation | Assets/Scripts/Utils/VNUtils.cs:135-144 | whatever indices are drawn, the result is a permutation |
| RandomUtils.ShuffleList | Assets/Scripts/Utils/VNUtils.cs:135-144 | in place: the list is the swaps of the drawn indices (each in 0..i) and a permutation of the old list |
| RandomUtils.GetRandomElement | Assets/Scripts/Utils/VNUtils.cs:160-166 | the default (`None`) exactly for a null or empty list, otherwise an element of it |

## Left out

- Saving and loading the game state (JSON through PlayerPrefs). `JsonUtility` does not serialise `Dictionary` fields, so the three stores written at GameStateManager.cs:94-99 do not come back at 111-115, and the code gives no round trip to state.
- The audio and background managers, the game UI and the example scene controller.
- Mouse and hover handling in the scene interaction manager, which is engine input.
- The fade and move coroutines of the character manager, including the non-immediate path of `HideCharacter`. Their timing is floating point.
- The character sprite colours and positions.
- The object's grey/white tint on use and reset, and its interaction sound.
- Reveal timing (`textSpeed`, the auto-advance delay) and voice clips. The reveal is modelled as ordered steps, not as time.
- `UpdateVisuals` (sprite loading) and `sceneTransition`, which no core code reads.
- Button `Instantiate`/`Destroy` in the choice panel. The buttons are modelled as the list of choices they carry.
- The locator singletons and `FindObjectOfType`. The game state store and the dialogue runner are passed explicitly.
- The other VNUtils members: `FormatTime`, `GenerateUniqueId`, `LerpColor`, `ClampVector2`, `IsPointInScreen`, `SmoothDamp`, `ParseEnum` and the extension methods. Each is engine, float or clock code.
- The conversion between `Color` (floats) and `Color32`. The hex helpers are modelled on the 8-bit channels.
- `GetRandomElement` over an array. It behaves like the list overload, which is modelled.
- Null strings generally (for example `WrapText(null, n)` or a null `hex`), a null node choice list, a null `nodes` list of a dialogue (DialogueData.cs:57) and a null `emotionSprites` list of a character (CharacterManager.cs:63, 120). Every list is a sequence.
- TextUtils.WrapText: the 32-bit overflow of `currentLineLength + word.Length + 1` is not modelled, because it needs a text longer than 2^31 characters.
- TextUtils.SanitizeFileName: the invalid-character set is a parameter, because `Path.GetInvalidFileNameChars()` depends on the platform.
- Dialogue.DialogueSystem: `autoAdvance` is a constant of the runner, although the settings toggle of the game UI (GameUI.cs:115-123) may change it at any time, even mid-dialogue. The machine functions take `autoAdvance` as a parameter of every step, so a varying value is covered there; only the class fixes it.
- Text beyond the Basic Multilingual Plane. C# strings are UTF-16 and the code counts code units: one reveal step per `char` (DialogueSystem.cs:107), `word.Length` in `WrapText` (VNUtils.cs:26, 38) and `hex.Length` in `HexToColor` (VNUtils.cs:106-109). A Dafny `char` here stands for one UTF-16 code unit, so a character that C# stores as a surrogate pair (two reveal steps, the first showing a lone surrogate; width two when wrapping; two units of a hex string) is not modelled.
- ColorUtils.HexDigits: the `hex.StartsWith("#")` test (VNUtils.cs:103) is modelled as an ordinal check of the first character. The culture-sensitive comparison of the source can skip ignorable code points such as U+00AD before the `#` (and `Substring(1)` then drops that code point instead); this is not modelled.
- Random numbers are nondeterministic choices in range. No distribution is claimed.
