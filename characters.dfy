/** The character registry: known characters, and the dictionary of character objects
    created on screen, each abstracted to whether it is active and which sprite it shows. */
module Characters {
  import opened Wrappers
  import Lists

  datatype Sprite = Sprite(name: string)

  /** A character of the database (its default screen position is not modelled). */
  datatype Character = Character(
    characterName: string,
    defaultSprite: Option<Sprite>,
    emotionSprites: seq<Sprite>)

  /** A character's on-screen object. */
  datatype CharacterObject = CharacterObject(active: bool, sprite: Option<Sprite>)

  /** The character database lookup: the first character with that name. */
  function FindCharacter(characters: seq<Character>, characterName: string): (r: Option<Character>)
    ensures r.Some? ==> r.value in characters && r.value.characterName == characterName
    ensures r.None? <==> forall i :: 0 <= i < |characters| ==> characters[i].characterName != characterName
  {
    Lists.Find(characters, (c: Character) => c.characterName == characterName)
  }

  /** The expression lookup: the first of the character's sprites with that name. */
  function FindSprite(sprites: seq<Sprite>, spriteName: string): (r: Option<Sprite>)
    ensures r.Some? ==> r.value in sprites && r.value.name == spriteName
    ensures r.None? <==> forall i :: 0 <= i < |sprites| ==> sprites[i].name != spriteName
  {
    Lists.Find(sprites, (s: Sprite) => s.name == spriteName)
  }

  class CharacterManager {
    const characters: seq<Character>
    var activeCharacters: map<string, CharacterObject>

    constructor (characters: seq<Character>)
      ensures this.characters == characters && activeCharacters == map[]
    {
      this.characters := characters;
      activeCharacters := map[];
    }

    /** Shows a known character, reusing its object or creating one with the default sprite;
        a non-empty sprite name that names one of its expressions replaces the sprite. */
    method ShowCharacter(characterName: string, spriteName: string := "")
      modifies this
      ensures FindCharacter(characters, characterName).None? ==> activeCharacters == old(activeCharacters)
      ensures FindCharacter(characters, characterName).Some? ==>
        var c := FindCharacter(characters, characterName).value;
        var found := if spriteName != "" then FindSprite(c.emotionSprites, spriteName) else None;
        var sprite := if found.Some? then found
                      else if characterName in old(activeCharacters) then old(activeCharacters)[characterName].sprite
                      else c.defaultSprite;
        activeCharacters == old(activeCharacters)[characterName := CharacterObject(true, sprite)]
      ensures activeCharacters.Keys <= old(activeCharacters.Keys) + {characterName}
      ensures FindCharacter(characters, characterName).Some? ==>
        characterName in activeCharacters && activeCharacters[characterName].active
      ensures forall n :: n in old(activeCharacters) && n != characterName ==>
        n in activeCharacters && activeCharacters[n] == old(activeCharacters)[n]
    {
      var character := FindCharacter(characters, characterName);
      if character.None? {
        return;  // "Character not found" is logged
      }
      var c := character.value;
      ghost var before := activeCharacters;
      var charObj: CharacterObject;
      if characterName in activeCharacters {
        charObj := activeCharacters[characterName];
      } else {
        charObj := CharacterObject(false, c.defaultSprite);
        activeCharacters := activeCharacters[characterName := charObj];
      }
      if spriteName != "" {
        var sprite := FindSprite(c.emotionSprites, spriteName);
        if sprite.Some? {
          charObj := charObj.(sprite := sprite);
        }
      }
      charObj := charObj.(active := true);
      activeCharacters := activeCharacters[characterName := charObj];
      assert activeCharacters == before[characterName := charObj];
    }

    /** The immediate form of HideCharacter: deactivates the object of a shown character. */
    method HideCharacter(characterName: string)
      modifies this
      ensures characterName !in old(activeCharacters) ==> activeCharacters == old(activeCharacters)
      ensures characterName in old(activeCharacters) ==>
        activeCharacters == old(activeCharacters)[characterName := old(activeCharacters)[characterName].(active := false)]
    {
      if characterName in activeCharacters {
        activeCharacters := activeCharacters[characterName := activeCharacters[characterName].(active := false)];
      }
    }

    /** Deactivates every character object; no entry is removed and no sprite changes. */
    method HideAllCharacters()
      modifies this
      ensures activeCharacters.Keys == old(activeCharacters.Keys)
      ensures forall n :: n in activeCharacters ==>
        activeCharacters[n] == old(activeCharacters)[n].(active := false)
    {
      var pending := activeCharacters.Keys;
      while pending != {}
        invariant pending <= activeCharacters.Keys == old(activeCharacters.Keys)
        invariant forall n :: n in pending ==> activeCharacters[n] == old(activeCharacters)[n]
        invariant forall n :: n in activeCharacters && n !in pending ==>
          activeCharacters[n] == old(activeCharacters)[n].(active := false)
        decreases pending
      {
        var n :| n in pending;
        activeCharacters := activeCharacters[n := activeCharacters[n].(active := false)];
        pending := pending - {n};
      }
    }

    /** Sets a shown character's expression when it is one of its sprites, whether or not the
        character is currently hidden; otherwise changes nothing. */
    method ChangeExpression(characterName: string, expressionName: string)
      modifies this
      ensures characterName !in old(activeCharacters) ==> activeCharacters == old(activeCharacters)
      ensures characterName in old(activeCharacters) ==>
        var c := FindCharacter(characters, characterName);
        var sprite := if c.Some? then FindSprite(c.value.emotionSprites, expressionName) else None;
        activeCharacters ==
          if sprite.Some?
          then old(activeCharacters)[characterName := old(activeCharacters)[characterName].(sprite := sprite)]
          else old(activeCharacters)
    {
      if characterName !in activeCharacters {
        return;  // "Character not active" is logged
      }
      var character := FindCharacter(characters, characterName);
      if character.None? {
        return;
      }
      var sprite := FindSprite(character.value.emotionSprites, expressionName);
      if sprite.Some? {
        activeCharacters := activeCharacters[characterName := activeCharacters[characterName].(sprite := sprite)];
      }
    }
  }
}
