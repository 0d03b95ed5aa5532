/**
 * Clipboard-preserving capture, retype and replace, after src-tauri/src/os.rs.
 *
 * The OS clipboard is a field holding its text (None when it holds no text
 * that can be read), and everything the program does to the outside world,
 * synthetic key events and clipboard writes, is appended to a log. What the
 * environment decides is passed in: whether the clipboard can be opened, what
 * the synthetic copy leaves on it, and whether a write succeeds. The settle
 * delays have no logical content and are dropped.
 */
module Os {
  import opened Wrappers

  /** The keys the program synthesises. */
  datatype Key = Control | Backspace | Layout(c: char)

  /** One observable action of the program. */
  datatype Effect =
    | KeyDown(key: Key)
    | KeyUp(key: Key)
    | KeyClick(key: Key)
    | ClipboardWrite(text: string)

  datatype OsError = ClipboardOpen | ClipboardRead | ClipboardSet

  /** Control held around one click: the copy chord for 'c', the paste chord for 'v'. */
  function Chord(c: char): seq<Effect> {
    [KeyDown(Control), KeyClick(Layout(c)), KeyUp(Control)]
  }

  // ---------------------------------------------------------------------------
  // Specifications of the three operations
  // ---------------------------------------------------------------------------

  /** What one operation returns, leaves on the clipboard, and emits. */
  datatype Outcome<T> = Outcome(result: Result<T, OsError>, clipboard: Option<string>, emitted: seq<Effect>)

  /**
   * `get_selected_text` from clipboard content `before`. `selection` is the
   * clipboard text after the synthetic copy (None when it cannot be read);
   * `restoreOk` says whether writing the backup back succeeds, a failure the
   * source ignores.
   */
  function Capture(before: Option<string>, openOk: bool, selection: Option<string>, restoreOk: bool)
    : Outcome<string>
  {
    if !openOk then Outcome(Err(ClipboardOpen), before, [])
    else if selection.None? then Outcome(Err(ClipboardRead), None, Chord('c'))
    else
      var copied := selection.value;
      if before == Some(copied) then Outcome(Ok(""), selection, Chord('c'))
      else if before.Some? && restoreOk then
        Outcome(Ok(copied), before, Chord('c') + [ClipboardWrite(before.value)])
      else Outcome(Ok(copied), selection, Chord('c'))
  }

  /** Is the character ASCII (`char::is_ascii`)? */
  predicate IsAscii(c: char) {
    c as int < 128
  }

  /** The ASCII characters of `raw`, in order. */
  function AsciiChars(raw: string): (r: string)
    ensures |r| <= |raw|
    ensures forall i :: 0 <= i < |r| ==> IsAscii(r[i])
    decreases |raw|
  {
    if raw == [] then []
    else
      var n := |raw| - 1;
      AsciiChars(raw[..n]) + (if IsAscii(raw[n]) then [raw[n]] else [])
  }

  /** One click per character. */
  function Clicks(s: string): (r: seq<Effect>)
    ensures |r| == |s|
  {
    seq(|s|, i requires 0 <= i < |s| => KeyClick(Layout(s[i])))
  }

  /** What `retype_key_sequence` emits for `raw`. */
  function Retyped(raw: string): seq<Effect> {
    Clicks(AsciiChars(raw))
  }

  /**
   * `replace_selection_with(s)` from clipboard content `before`: `setOk` says
   * whether putting `s` on the clipboard succeeds, `restoreOk` whether writing
   * the backup back does (the source ignores that failure).
   */
  function Replace(before: Option<string>, s: string, openOk: bool, setOk: bool, restoreOk: bool)
    : Outcome<()>
  {
    if !openOk then Outcome(Err(ClipboardOpen), before, [])
    else if !setOk then Outcome(Err(ClipboardSet), before, [])
    else if before.Some? && restoreOk then
      Outcome(Ok(()), before, [ClipboardWrite(s)] + Chord('v') + [ClipboardWrite(before.value)])
    else Outcome(Ok(()), Some(s), [ClipboardWrite(s)] + Chord('v'))
  }

  // ---------------------------------------------------------------------------
  // The state and the operations
  // ---------------------------------------------------------------------------

  /** The OS clipboard and the log of what the program has done. */
  class Desktop {
    var clipboard: Option<string>
    var effects: seq<Effect>

    constructor (text: Option<string>)
      ensures clipboard == text && effects == []
    {
      clipboard := text;
      effects := [];
    }

    method Emit(e: Effect)
      modifies this
      ensures clipboard == old(clipboard) && effects == old(effects) + [e]
    {
      effects := effects + [e];
    }

    /** A successful clipboard write. */
    method Write(text: string)
      modifies this
      ensures clipboard == Some(text) && effects == old(effects) + [ClipboardWrite(text)]
    {
      clipboard := Some(text);
      effects := effects + [ClipboardWrite(text)];
    }

    /** `get_selected_text`. */
    method GetSelectedText(openOk: bool, selection: Option<string>, restoreOk: bool)
      returns (r: Result<string, OsError>)
      modifies this
      ensures var spec := Capture(old(clipboard), openOk, selection, restoreOk);
              r == spec.result && clipboard == spec.clipboard &&
              effects == old(effects) + spec.emitted
    {
      if !openOk {
        return Err(ClipboardOpen);
      }
      var backup := clipboard;

      Emit(KeyDown(Control));
      Emit(KeyClick(Layout('c')));
      Emit(KeyUp(Control));
      // The OS puts the selection on the clipboard.
      clipboard := selection;

      if selection.None? {
        return Err(ClipboardRead);
      }
      var copied := selection.value;

      if backup.Some? && backup.value == copied {
        return Ok("");
      }

      if backup.Some? && restoreOk {
        Write(backup.value);
      }
      r := Ok(copied);
    }

    /** `retype_key_sequence`: one click per ASCII character, never an error. */
    method RetypeKeySequence(raw: string) returns (r: Result<(), OsError>)
      modifies this
      ensures r == Ok(())
      ensures clipboard == old(clipboard) && effects == old(effects) + Retyped(raw)
    {
      var i := 0;
      while i < |raw|
        invariant 0 <= i <= |raw|
        invariant clipboard == old(clipboard)
        invariant effects == old(effects) + Retyped(raw[..i])
      {
        var ch := raw[i];
        assert raw[..i + 1][..i] == raw[..i];
        assert Clicks(AsciiChars(raw[..i]) + [ch]) == Clicks(AsciiChars(raw[..i])) + [KeyClick(Layout(ch))];
        if IsAscii(ch) {
          Emit(KeyClick(Layout(ch)));
        }
        i := i + 1;
      }
      assert raw[..i] == raw;
      r := Ok(());
    }

    /** `replace_selection_with`. */
    method ReplaceSelectionWith(s: string, openOk: bool, setOk: bool, restoreOk: bool)
      returns (r: Result<(), OsError>)
      modifies this
      ensures var spec := Replace(old(clipboard), s, openOk, setOk, restoreOk);
              r == spec.result && clipboard == spec.clipboard &&
              effects == old(effects) + spec.emitted
    {
      if !openOk {
        return Err(ClipboardOpen);
      }
      var backup := clipboard;

      if !setOk {
        return Err(ClipboardSet);
      }
      Write(s);

      Emit(KeyDown(Control));
      Emit(KeyClick(Layout('v')));
      Emit(KeyUp(Control));

      if backup.Some? && restoreOk {
        Write(backup.value);
      }
      r := Ok(());
    }
  }

  // ---------------------------------------------------------------------------
  // Properties
  // ---------------------------------------------------------------------------

  /** Nothing is written to the clipboard in `emitted`. */
  predicate NoWrites(emitted: seq<Effect>) {
    forall i :: 0 <= i < |emitted| ==> !emitted[i].ClipboardWrite?
  }

  /** When the copy leaves the clipboard text as it was, nothing was selected: "" and no restore. */
  lemma CaptureUnchangedMeansNothing(text: string, restoreOk: bool)
    ensures var o := Capture(Some(text), true, Some(text), restoreOk);
            o.result == Ok("") && o.clipboard == Some(text) && NoWrites(o.emitted)
  {
  }

  /**
   * Otherwise the copied text is returned; the backup is written back when
   * there was one, and the copied text stays when there was none.
   */
  lemma CaptureReturnsCopied(before: Option<string>, copied: string, restoreOk: bool)
    requires before != Some(copied)
    ensures var o := Capture(before, true, Some(copied), restoreOk);
            o.result == Ok(copied) &&
            (before.Some? && restoreOk ==> o.clipboard == before && o.emitted[|o.emitted| - 1] == ClipboardWrite(before.value)) &&
            (before.None? ==> o.clipboard == Some(copied) && NoWrites(o.emitted))
  {
  }

  /**
   * Once the clipboard opens, the copy chord goes out first: Ctrl down, 'c',
   * Ctrl up. It is the only key event: all that may follow is a clipboard write.
   */
  lemma CaptureCopiesFirst(before: Option<string>, selection: Option<string>, restoreOk: bool)
    ensures var o := Capture(before, true, selection, restoreOk);
            |o.emitted| >= 3 && o.emitted[..3] == Chord('c') &&
            forall i :: 3 <= i < |o.emitted| ==> o.emitted[i].ClipboardWrite?
  {
  }

  /** An open failure emits nothing and leaves the clipboard; a read failure is an error after the copy. */
  lemma CaptureFailures(before: Option<string>, selection: Option<string>, restoreOk: bool)
    ensures Capture(before, false, selection, restoreOk) == Outcome(Err(ClipboardOpen), before, [])
    ensures Capture(before, true, None, restoreOk).result == Err(ClipboardRead)
  {
  }

  /** Retyping is compositional: the keys of `a + b` are those of `a` then those of `b`. */
  lemma {:induction false} AsciiCharsAppend(a: string, b: string)
    ensures AsciiChars(a + b) == AsciiChars(a) + AsciiChars(b)
    decreases |b|
  {
    if b == [] {
      assert a + b == a;
    } else {
      var n := |b| - 1;
      assert (a + b)[..|a + b| - 1] == a + b[..n];
      AsciiCharsAppend(a, b[..n]);
    }
  }

  /** A character is retyped exactly when it occurs in the input and is ASCII. */
  lemma {:induction false} AsciiCharsMembers(raw: string, c: char)
    ensures c in AsciiChars(raw) <==> c in raw && IsAscii(c)
    decreases |raw|
  {
    if raw != [] {
      var n := |raw| - 1;
      AsciiCharsMembers(raw[..n], c);
      assert raw == raw[..n] + [raw[n]];
    }
  }

  /** An all-ASCII key sequence is retyped exactly, character by character. */
  lemma {:induction false} AsciiCharsOfAscii(raw: string)
    requires forall i :: 0 <= i < |raw| ==> IsAscii(raw[i])
    ensures AsciiChars(raw) == raw
    decreases |raw|
  {
    if raw != [] {
      var n := |raw| - 1;
      AsciiCharsOfAscii(raw[..n]);
      assert raw[..n] + [raw[n]] == raw;
    }
  }

  /** Only clicks of ASCII characters are emitted: no Control, no Backspace, no clipboard write. */
  lemma RetypedOnlyAsciiClicks(raw: string)
    ensures forall i :: 0 <= i < |Retyped(raw)| ==>
              Retyped(raw)[i].KeyClick? && Retyped(raw)[i].key.Layout? &&
              IsAscii(Retyped(raw)[i].key.c)
  {
  }

  /** Space and newline are ASCII, so they are retyped like any other key. */
  lemma RetypesSpaceAndNewline()
    ensures Retyped(" \n") == [KeyClick(Layout(' ')), KeyClick(Layout('\n'))]
  {
    assert " \n"[..1] == " ";
    assert AsciiChars(" \n") == " \n";
  }

  /**
   * The replacement text is on the clipboard before the paste chord, which is
   * the only key event; nothing is pasted if that write fails.
   */
  lemma ReplaceWritesThenPastes(before: Option<string>, s: string, setOk: bool, restoreOk: bool)
    ensures var o := Replace(before, s, true, setOk, restoreOk);
            (setOk ==> o.result.Ok? && |o.emitted| >= 4 && o.emitted[..4] == [ClipboardWrite(s)] + Chord('v') &&
                       forall i :: 4 <= i < |o.emitted| ==> o.emitted[i].ClipboardWrite?) &&
            (!setOk ==> o.result == Err(ClipboardSet) && o.emitted == [] && o.clipboard == before)
  {
  }

  /** After a successful replace the clipboard holds the backup if there was one, `s` otherwise. */
  lemma ReplaceRestores(before: Option<string>, s: string, restoreOk: bool)
    ensures var o := Replace(before, s, true, true, restoreOk);
            o.result.Ok? &&
            (before.Some? && restoreOk ==> o.clipboard == before) &&
            (before.None? ==> o.clipboard == Some(s))
  {
  }
}
