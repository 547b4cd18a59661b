/** The game's flag and variable store: three dictionaries (bool, int and string) that read
    as a default for a name never set, and a reset that empties all three. */
module GameState {
  import opened Wrappers

  /** A C# int. */
  newtype Int32 = x: int | -0x8000_0000 <= x < 0x8000_0000

  /** Reading a flag: its stored value, or false when it was never set. */
  function LookupFlag(flags: map<string, bool>, name: string): bool {
    name in flags && flags[name]
  }

  /** Every listed flag reads true; a null or empty list imposes nothing. */
  predicate AllFlagsSet(flags: map<string, bool>, names: Option<seq<string>>) {
    names.None? || forall i :: 0 <= i < |names.value| ==> LookupFlag(flags, names.value[i])
  }

  /** Setting each listed flag to true, one after the other. */
  function SetFlags(flags: map<string, bool>, names: seq<string>): (r: map<string, bool>)
    ensures forall n :: n in names ==> LookupFlag(r, n)
    ensures forall n :: n !in names ==> LookupFlag(r, n) == LookupFlag(flags, n)
    ensures r.Keys == flags.Keys + set n | n in names
  {
    if |names| == 0 then flags
    else
      var init, last := names[..|names| - 1], names[|names| - 1];
      assert names == init + [last];
      SetFlags(flags, init)[last := true]
  }

  class GameStateManager {
    var flags: map<string, bool>
    var intVariables: map<string, Int32>
    var stringVariables: map<string, string>

    constructor ()
      ensures flags == map[] && intVariables == map[] && stringVariables == map[]
    {
      flags, intVariables, stringVariables := map[], map[], map[];
    }

    method SetFlag(flagName: string, value: bool := true)
      modifies this
      ensures flags == old(flags)[flagName := value]
      ensures GetFlag(flagName) == value
      ensures forall n :: n != flagName ==> GetFlag(n) == old(GetFlag(n))
      ensures intVariables == old(intVariables) && stringVariables == old(stringVariables)
    {
      flags := flags[flagName := value];
    }

    /** The stored value of a flag, false for a name never set. */
    function GetFlag(flagName: string): (r: bool)
      reads this
      ensures flagName !in flags ==> !r
      ensures flagName in flags ==> r == flags[flagName]
    {
      LookupFlag(flags, flagName)
    }

    /** True when the list is null or empty, otherwise when every listed flag reads true;
        stops at the first flag that does not. */
    method HasAllFlags(requiredFlags: Option<seq<string>>) returns (r: bool)
      ensures r == AllFlagsSet(flags, requiredFlags)
      ensures requiredFlags.None? || |requiredFlags.value| == 0 ==> r
    {
      if requiredFlags.None? || |requiredFlags.value| == 0 {
        return true;
      }
      var names := requiredFlags.value;
      for i := 0 to |names|
        invariant forall j :: 0 <= j < i ==> LookupFlag(flags, names[j])
      {
        if !GetFlag(names[i]) {
          return false;
        }
      }
      return true;
    }

    method SetInt(varName: string, value: Int32)
      modifies this
      ensures intVariables == old(intVariables)[varName := value]
      ensures GetInt(varName) == value
      ensures flags == old(flags) && stringVariables == old(stringVariables)
    {
      intVariables := intVariables[varName := value];
    }

    /** The stored value, or the caller's default (0 when omitted) for a name never set. */
    function GetInt(varName: string, defaultValue: Int32 := 0): (r: Int32)
      reads this
      ensures varName in intVariables ==> r == intVariables[varName]
      ensures varName !in intVariables ==> r == defaultValue
    {
      if varName in intVariables then intVariables[varName] else defaultValue
    }

    method SetString(varName: string, value: string)
      modifies this
      ensures stringVariables == old(stringVariables)[varName := value]
      ensures GetString(varName) == value
      ensures flags == old(flags) && intVariables == old(intVariables)
    {
      stringVariables := stringVariables[varName := value];
    }

    /** The stored value, or the caller's default ("" when omitted) for a name never set. */
    function GetString(varName: string, defaultValue: string := ""): (r: string)
      reads this
      ensures varName in stringVariables ==> r == stringVariables[varName]
      ensures varName !in stringVariables ==> r == defaultValue
    {
      if varName in stringVariables then stringVariables[varName] else defaultValue
    }

    /** Clears all three dictionaries. */
    method NewGame()
      modifies this
      ensures flags == map[] && intVariables == map[] && stringVariables == map[]
      ensures forall n :: !GetFlag(n)
      ensures forall n, d :: GetInt(n, d) == d
      ensures forall n, d :: GetString(n, d) == d
    {
      flags, intVariables, stringVariables := map[], map[], map[];
    }
  }

  /** A set flag reads back its value; no other flag's reading changes. */
  lemma SetThenGetFlag(flags: map<string, bool>, name: string, value: bool, other: string)
    ensures LookupFlag(flags[name := value], name) == value
    ensures other != name ==> LookupFlag(flags[name := value], other) == LookupFlag(flags, other)
  {
  }

  /** HasAllFlags is true exactly when every listed flag reads true. */
  lemma AllFlagsSetMeansEach(flags: map<string, bool>, names: seq<string>)
    ensures AllFlagsSet(flags, Some(names)) <==> forall n :: n in names ==> LookupFlag(flags, n)
  {
  }
}
