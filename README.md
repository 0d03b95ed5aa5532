# fix-zhuyin remediation core, modelled in Dafny

fix-zhuyin repairs text typed while the input method was in the wrong mode.
A global hotkey captures the selected raw key sequence through the clipboard.
The clipboard is then put back. The keys are replayed as synthetic keystrokes,
so that the active Zhuyin input method reinterprets them. A converter turns a
key sequence into a bracketed Zhuyin preview.

This project models the four core files of `src-tauri/src` as sequential code:

- `conv.dfy`, module `Conv` (conv.rs). The layout table is a parameter
  `map<string, string>`. The embedded resource's parse-failure fallback is the
  empty map `FallbackLayout`. The two loops (`to_bopomofo_symbols`,
  `segment_syllables`) are methods with loop invariants. Each is proved equal to
  a specification function (`Symbols`, `Syllables`). Those functions are
  defined by recursion on the last element. Segmentation is reasoned about on
  groups of symbols (`Groups`), which are then joined into syllable strings.
- `hotkey.dfy`, module `HotkeyReg` (hotkey.rs). The `CURRENT` slot is the class
  `HotkeyManager`. The OS shortcut registry is two fields of that class: the set
  of registered shortcuts and the ordered log of register and unregister calls.
  Whether the OS accepts a registration is a parameter.
- `settings.dfy`, module `SettingsStore` (settings.rs). It holds the default
  settings and the `CACHED` cell as the class `SettingsCache`. Reading the file
  is an `Option<string>`; parsing JSON is a function parameter.
- `os.dfy`, module `Os` (os.rs). The class `Desktop` holds the clipboard text
  and an append-only log of effects: key events and clipboard writes. The
  environment's behaviour is passed in as parameters: whether the clipboard
  opens, what the copy leaves on it, and whether each write succeeds. Each
  operation is proved equal to a specification function (`Capture`,
  `Retyped`, `Replace`). The properties are lemmas about those functions.
- `wrappers.dfy`, module `Wrappers`: `Option` and `Result`.

Where the intended behaviour and the code disagree, the model follows the code:

- The intended hotkey swap is transactional: the old binding stays if the new
  one is refused. The code unregisters the old binding first (the comment at
  hotkey.rs:39 and the `take()` at hotkey.rs:40-42). On refusal it leaves no
  binding registered and `CURRENT` empty. `RegisterFromSettings` states this
  behaviour.
- The doc comment of `retype_key_sequence` (os.rs:40) says no Enter or space
  is sent, and the comment at os.rs:50 says only visible ASCII and common
  punctuation pass. The code filters with `is_ascii` (os.rs:51), which admits
  space, newline and control characters. `RetypesSpaceAndNewline` states this
  behaviour.
- Capture is meant to leave the clipboard as it found it: its doc comment
  (os.rs:5) promises to back up and restore it. The code writes nothing back
  when the copied text equals the backup (os.rs:27-31). It also writes nothing
  back when there was no readable backup, so the copied text stays on the
  clipboard. If the backup cannot be read, capture does not fail: the backup
  is just absent.

## Model

| member | source | states |
|---|---|---|
| `Conv.Symbols` | src-tauri/src/conv.rs:25-36 | the symbol sequence is no longer than the input, and every symbol is a value of the layout |
| `Conv.ToBopomofoSymbols` | src-tauri/src/conv.rs:25-36 | the loop returns exactly the symbol sequence `Symbols(layout, raw)` |
| `Conv.MappedIndices` | src-tauri/src/conv.rs:27-34 | there is one source position per produced symbol, and each position is inside the input |
| `Conv.SymbolsFromMappedChars` | src-tauri/src/conv.rs:28-30 | the i-th symbol is the layout's value at the ASCII-lowercased character at the i-th mapped position |
| `Conv.MappedIndicesIncreasing` | src-tauri/src/conv.rs:27-34 | those positions strictly increase, so symbols keep the input order |
| `Conv.MappedCharsKept` | src-tauri/src/conv.rs:29-30 | every character whose key is in the layout contributes its symbol |
| `Conv.SymbolsAppend` | src-tauri/src/conv.rs:27-34 | the symbols of `a + b` are the symbols of `a` followed by those of `b` |
| `Conv.SymbolsEmpty` | src-tauri/src/conv.rs:27-34 | there are no symbols exactly when no character's key is in the layout, so unmapped characters are dropped silently |
| `Conv.SymbolsIgnoreAsciiCase` | src-tauri/src/conv.rs:28 | ASCII-lowercasing the input first yields the same symbols |
| `Conv.ScanLossless` | src-tauri/src/conv.rs:43-49 | after any prefix of the symbols, the pushed syllables followed by the buffer concatenate to that prefix |
| `Conv.ScanShape` | src-tauri/src/conv.rs:43-49 | after any prefix, each pushed syllable ends in a tone mark and has no tone mark before its end, and the buffer holds no tone mark |
| `Conv.ScanCount` | src-tauri/src/conv.rs:43-49 | after any prefix, one syllable has been pushed per tone mark, and the buffer is empty exactly when the prefix is empty or ends in a tone mark |
| `Conv.SegmentSyllables` | src-tauri/src/conv.rs:39-54 | the loop returns exactly the joined groups `Syllables(symbols)` |
| `Conv.GroupsLossless` | src-tauri/src/conv.rs:39-54 | segmentation is lossless: the groups concatenate back to the symbol sequence |
| `Conv.GroupsCount` | src-tauri/src/conv.rs:40-52 | the number of syllables is the number of tone marks, plus one exactly when the last symbol is not a tone mark |
| `Conv.GroupsWellSegmented` | src-tauri/src/conv.rs:43-49 | every syllable is non-empty, every one except the last ends in a tone mark, and no tone mark occurs before a syllable's end |
| `Conv.GroupsUnique` | src-tauri/src/conv.rs:39-54 | the segmentation is the only split of the symbols into non-empty groups that concatenate back to them, have no tone mark before their end, and all end in a tone mark except possibly the last |
| `Conv.SyllablesLossless` | src-tauri/src/conv.rs:46-51 | the joined syllable strings concatenate to the concatenation of all symbols |
| `Conv.ConvertRawEnglishToCandidates` | src-tauri/src/conv.rs:57-65 | the result is always `Ok`, holding the candidate list `Candidates(layout, raw)` |
| `Conv.CandidatesEmpty` | src-tauri/src/conv.rs:58-61 | there is no candidate exactly when no character of the input is mapped |
| `Conv.NoCandidatesForEmptyInputOrLayout` | src-tauri/src/conv.rs:15-21 | the empty input and the empty fallback layout both give `[]` |
| `Conv.OneCandidate` | src-tauri/src/conv.rs:62-64 | with a mapped character there is exactly one candidate, `"〔" + syllables joined by " " + "〕"`, with one syllable per tone plus a toneless tail, and no symbol lost |
| `Conv.SampleToned` | src-tauri/src/conv.rs:57-65 | with layout a→ㄇ, s→ㄚ, d→ˋ, the input "asd" gives `["〔ㄇㄚˋ〕"]` |
| `Conv.SampleToneless` | src-tauri/src/conv.rs:57-65 | with the same layout, the input "AS" gives `["〔ㄇㄚ〕"]`: the toneless tail is a syllable and case is ignored |
| `SettingsStore.DefaultIsCtrlSemicolon` | src-tauri/src/settings.rs:18-29 | the default is ctrl on, shift off, alt off, code "Semicolon" |
| `SettingsStore.Load` | src-tauri/src/settings.rs:43-47 | `load` is `Some` exactly when the file reads and its text parses, and then it is the parsed value |
| `SettingsStore.InitialSettings` | src-tauri/src/settings.rs:41 | the first cached value is the loaded settings, or the default when loading failed |
| `SettingsStore.UnreadableFileGivesDefault` | src-tauri/src/settings.rs:41-45 | an unreadable file leaves the default in the cache, whatever the parser |
| `SettingsStore.SettingsCache.constructor` | src-tauri/src/settings.rs:41 | the cache starts at `load().unwrap_or_default()` |
| `SettingsStore.SettingsCache.GetCached` | src-tauri/src/settings.rs:56-58 | `get_cached` returns the cached value |
| `SettingsStore.SettingsCache.SetCached` | src-tauri/src/settings.rs:60-62 | after `set_cached(s)` the cache holds exactly `s`, so the next `get_cached` returns `s` |
| `HotkeyReg.ParseCode` | src-tauri/src/hotkey.rs:11-20 | `Some` exactly for "Semicolon", "KeyJ", "KeyK" and "KeyL", `None` otherwise; an accepted code names the string parsed |
| `HotkeyReg.ParseCodeName` | src-tauri/src/hotkey.rs:13-18 | each supported code's name parses back to that code |
| `HotkeyReg.Modifiers` | src-tauri/src/hotkey.rs:24-33 | CONTROL, SHIFT and ALT are in the set exactly when ctrl, shift and alt are true |
| `HotkeyReg.ModifiersOf` | src-tauri/src/hotkey.rs:24-33 | the step-by-step accumulation of `mods` yields exactly that modifier set |
| `HotkeyReg.Requested` | src-tauri/src/hotkey.rs:35-37 | a setting describes a shortcut exactly when its code parses; the shortcut carries that code and those modifiers |
| `HotkeyReg.DefaultIsSupported` | src-tauri/src/hotkey.rs:14 | the default settings describe Ctrl + Semicolon, which `parse_code` accepts |
| `HotkeyReg.HotkeyManager.constructor` | src-tauri/src/hotkey.rs:8 | the slot starts empty, and nothing is registered |
| `HotkeyReg.HotkeyManager.RegisterFromSettings` | src-tauri/src/hotkey.rs:23-56 | an unsupported code gives an error with the slot, registry and call log unchanged; otherwise the old binding is unregistered before the new one is registered; on success the slot and registry hold exactly the new shortcut; on refusal the result is an error, the slot is empty and nothing is registered; at most one shortcut is ever registered |
| `Os.Desktop.GetSelectedText` | src-tauri/src/os.rs:7-38 | result, final clipboard and emitted effects are exactly those of `Capture` from the clipboard before the call |
| `Os.CaptureUnchangedMeansNothing` | src-tauri/src/os.rs:27-31 | if the copied text equals the backup, the result is `""` and nothing is written back |
| `Os.CaptureReturnsCopied` | src-tauri/src/os.rs:33-37 | otherwise the copied text is returned; a backup is written back last; with no backup the copied text stays and nothing is written |
| `Os.CaptureCopiesFirst` | src-tauri/src/os.rs:13-37 | once the clipboard opens, the first effects are Ctrl down, click 'c', Ctrl up, and every later effect is a clipboard write, so the copy chord is the only key event |
| `Os.CaptureFailures` | src-tauri/src/os.rs:9-24 | an open failure emits nothing and leaves the clipboard unchanged; a read failure after the copy is an error |
| `Os.Desktop.RetypeKeySequence` | src-tauri/src/os.rs:42-57 | the result is always `Ok`; the clipboard is unchanged; the emitted keys are exactly `Retyped(raw)` |
| `Os.AsciiChars` | src-tauri/src/os.rs:49-55 | the retyped characters are all ASCII and no more than the input |
| `Os.AsciiCharsMembers` | src-tauri/src/os.rs:49-55 | a character is retyped exactly when it occurs in the input and passes `is_ascii`: nothing is substituted, no ASCII character dropped |
| `Os.AsciiCharsAppend` | src-tauri/src/os.rs:49-55 | retyping `a + b` emits the keys of `a` then those of `b`, so input order is kept |
| `Os.AsciiCharsOfAscii` | src-tauri/src/os.rs:49-55 | an all-ASCII input is retyped character for character |
| `Os.RetypedOnlyAsciiClicks` | src-tauri/src/os.rs:45-56 | every emitted effect is a click of an ASCII character key: no Backspace, no Control, no clipboard write |
| `Os.RetypesSpaceAndNewline` | src-tauri/src/os.rs:40-51 | space and newline pass `is_ascii` and are retyped, contrary to the doc comment |
| `Os.Desktop.ReplaceSelectionWith` | src-tauri/src/os.rs:59-82 | result, final clipboard and emitted effects are exactly those of `Replace` from the clipboard before the call |
| `Os.ReplaceWritesThenPastes` | src-tauri/src/os.rs:65-81 | `s` is written to the clipboard before Ctrl+V, and the paste chord is the only key event (all that follows is a clipboard write); if that first write fails the result is an error, nothing is emitted and the clipboard is unchanged |
| `Os.ReplaceRestores` | src-tauri/src/os.rs:77-81 | after a successful replace, the clipboard holds the backup when one existed and was written back, and holds `s` when there was none |

## Left out

- The embedded layout resource and its JSON parsing. The layout is a parameter, and the fallback is the empty map. The layout's `name` and `notes` fields are not used by the conversion and are not modelled.
- Settings persistence: `save`, the settings path, directory creation and JSON (de)serialisation. The file read is an `Option<string>` and the parser a function parameter.
- The command and callback glue in main.rs (`get_settings`, `set_settings`, `replace_with`, `handle_hotkey`), the tray, the windows and the front end. They only sequence the modelled operations.
- The settle delays (`thread::sleep`). They have no logical content.
- `Mutex` and `Lazy` locking and concurrent hotkey invocations, including the clipboard race between overlapping capture cycles. The state is single-threaded class fields.
- HotkeyReg.HotkeyManager.RegisterFromSettings: the OS unregister call always succeeds. Its result is ignored in the source, so a failed unregister would leave a stale registration the model does not represent.
- Os.Desktop.GetSelectedText: a failure to open the clipboard a second time, for the read, is merged with a failed read (`selection` is None).
- What the target application does with the synthetic keys, such as pasting or composing, is not modelled. Only the emitted events are.
- Log output (`println!`, `eprintln!`) and the exact error message texts. Errors are constructors of `HotkeyError` and `OsError`.
- The `rime` module is not part of this model.
