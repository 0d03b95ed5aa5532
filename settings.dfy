/**
 * The persisted settings and their process-wide cache, after
 * src-tauri/src/settings.rs.
 *
 * Reading the settings file and parsing its JSON are not modelled: the file
 * read is an `Option<string>` (None when it fails) and the parser a total
 * function from text to `Option<Settings>`.
 */
module SettingsStore {
  import opened Wrappers

  /** The hotkey part of the settings; `code` is a key-code name such as "KeyJ". */
  datatype Hotkey = Hotkey(ctrl: bool, shift: bool, alt: bool, code: string)

  datatype Settings = Settings(hotkey: Hotkey)

  /** `Settings::default`. */
  function Default(): Settings {
    Settings(Hotkey(true, false, false, "Semicolon"))
  }

  /** The documented default binding: Ctrl alone with the semicolon key. */
  lemma DefaultIsCtrlSemicolon()
    ensures var h := Default().hotkey;
            h.ctrl && !h.shift && !h.alt && h.code == "Semicolon"
  {
  }

  /** `load`: None when the file cannot be read or its text does not parse. */
  function Load(fileText: Option<string>, parse: string -> Option<Settings>): (r: Option<Settings>)
    ensures r.Some? <==> fileText.Some? && parse(fileText.value).Some?
    ensures r.Some? ==> r == parse(fileText.value)
  {
    match fileText
    case None => None
    case Some(text) => parse(text)
  }

  /** The first value of the cache: the loaded settings, or the default when loading failed. */
  function InitialSettings(fileText: Option<string>, parse: string -> Option<Settings>): (s: Settings)
    ensures Load(fileText, parse).Some? ==> s == Load(fileText, parse).value
    ensures Load(fileText, parse).None? ==> s == Default()
  {
    Load(fileText, parse).GetOr(Default())
  }

  /** A missing or unreadable settings file leaves the default in the cache. */
  lemma UnreadableFileGivesDefault(parse: string -> Option<Settings>)
    ensures InitialSettings(None, parse) == Default()
  {
  }

  /** The `CACHED` cell. */
  class SettingsCache {
    var cached: Settings

    /** The lazy initialisation `load().unwrap_or_default()`. */
    constructor (fileText: Option<string>, parse: string -> Option<Settings>)
      ensures cached == InitialSettings(fileText, parse)
    {
      cached := Load(fileText, parse).GetOr(Default());
    }

    /** `get_cached`: a copy of the cached value. */
    method GetCached() returns (s: Settings)
      ensures s == cached
    {
      s := cached;
    }

    /** `set_cached`: the cache holds `s` afterwards. */
    method SetCached(s: Settings)
      modifies this
      ensures cached == s
    {
      cached := s;
    }
  }
}
