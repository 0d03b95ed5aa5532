/**
 * The single-slot global-hotkey registration of src-tauri/src/hotkey.rs.
 *
 * The operating system's shortcut registry is abstract state: the set of
 * shortcuts registered for this application and the log of register and
 * unregister calls made to it. Whether the OS accepts a registration (it
 * refuses one that another program already holds) is a parameter.
 */
module HotkeyReg {
  import opened Wrappers
  import opened SettingsStore

  /** The supported key codes. */
  datatype Code = Semicolon | KeyJ | KeyK | KeyL

  /** The name under which a code is stored in the settings. */
  function CodeName(c: Code): string {
    match c
    case Semicolon => "Semicolon"
    case KeyJ => "KeyJ"
    case KeyK => "KeyK"
    case KeyL => "KeyL"
  }

  /** `parse_code`: the four supported names are accepted, every other string is refused. */
  function ParseCode(code: string): (r: Option<Code>)
    ensures r.Some? <==> code in {"Semicolon", "KeyJ", "KeyK", "KeyL"}
    ensures r.Some? ==> CodeName(r.value) == code
  {
    match code
    case "Semicolon" => Some(Semicolon)
    case "KeyJ" => Some(KeyJ)
    case "KeyK" => Some(KeyK)
    case "KeyL" => Some(KeyL)
    case _ => None
  }

  /** Every code's name parses back to it. */
  lemma ParseCodeName(c: Code)
    ensures ParseCode(CodeName(c)) == Some(c)
  {
  }

  datatype Modifier = Control | Shift | Alt

  datatype Shortcut = Shortcut(mods: set<Modifier>, code: Code)

  /** The modifier flags a hotkey setting asks for. */
  function Modifiers(h: Hotkey): (mods: set<Modifier>)
    ensures Control in mods <==> h.ctrl
    ensures Shift in mods <==> h.shift
    ensures Alt in mods <==> h.alt
  {
    (if h.ctrl then {Control} else {}) +
    (if h.shift then {Shift} else {}) +
    (if h.alt then {Alt} else {})
  }

  /** The accumulation `mods |= …` of `register_from_settings`. */
  method ModifiersOf(h: Hotkey) returns (mods: set<Modifier>)
    ensures mods == Modifiers(h)
  {
    mods := {};
    if h.ctrl {
      mods := mods + {Control};
    }
    if h.shift {
      mods := mods + {Shift};
    }
    if h.alt {
      mods := mods + {Alt};
    }
  }

  /** The shortcut a hotkey setting describes, or None when its code is unsupported. */
  function Requested(h: Hotkey): (r: Option<Shortcut>)
    ensures r.Some? <==> ParseCode(h.code).Some?
    ensures r.Some? ==> CodeName(r.value.code) == h.code && r.value.mods == Modifiers(h)
  {
    match ParseCode(h.code)
    case None => None
    case Some(c) => Some(Shortcut(Modifiers(h), c))
  }

  /** The default settings describe Ctrl + Semicolon, which the parser accepts. */
  lemma DefaultIsSupported()
    ensures Requested(Default().hotkey) == Some(Shortcut({Control}, Semicolon))
  {
    assert Modifiers(Default().hotkey) == {Control};
  }

  /** A call made to the OS shortcut registry. */
  datatype RegistryCall = Unregister(shortcut: Shortcut) | Register(shortcut: Shortcut)

  datatype HotkeyError = UnsupportedCode | RegistrationFailed

  /** The unregister call for a taken binding, if there was one. */
  function Released(taken: Option<Shortcut>): seq<RegistryCall> {
    match taken
    case None => []
    case Some(s) => [Unregister(s)]
  }

  /** The `CURRENT` slot together with the OS registry it mirrors. */
  class HotkeyManager {
    var current: Option<Shortcut>
    var registered: set<Shortcut>
    var calls: seq<RegistryCall>

    /** At most one shortcut is registered, and it is the one in the slot. */
    ghost predicate Valid()
      reads this
    {
      registered == if current.Some? then {current.value} else {}
    }

    constructor ()
      ensures Valid() && current == None && registered == {} && calls == []
    {
      current := None;
      registered := {};
      calls := [];
    }

    /**
     * `register_from_settings`. An unsupported code fails before anything is
     * touched. Otherwise the old binding is taken and unregistered first, then
     * the new one is registered; when the OS refuses it the slot stays empty.
     */
    method RegisterFromSettings(s: Settings, osAccepts: bool) returns (r: Result<(), HotkeyError>)
      requires Valid()
      modifies this
      ensures Valid()
      ensures Requested(s.hotkey).None? ==>
                r == Err(UnsupportedCode) && current == old(current) &&
                registered == old(registered) && calls == old(calls)
      ensures Requested(s.hotkey).Some? ==>
                var sc := Requested(s.hotkey).value;
                calls == old(calls) + Released(old(current)) + [Register(sc)] &&
                (osAccepts ==> r == Ok(()) && current == Some(sc) && registered == {sc}) &&
                (!osAccepts ==> r == Err(RegistrationFailed) && current == None && registered == {})
    {
      var mods := ModifiersOf(s.hotkey);
      var code := ParseCode(s.hotkey.code);
      if code.None? {
        return Err(UnsupportedCode);
      }
      var shortcut := Shortcut(mods, code.value);

      var taken := current;
      current := None;
      if taken.Some? {
        registered := registered - {taken.value};
        calls := calls + [Unregister(taken.value)];
      }

      calls := calls + [Register(shortcut)];
      if osAccepts {
        registered := registered + {shortcut};
        current := Some(shortcut);
        r := Ok(());
      } else {
        r := Err(RegistrationFailed);
      }
    }
  }
}
