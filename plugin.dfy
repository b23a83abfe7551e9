/** The plugin object: its settings field, assigned on load and changed one
    field at a time by the settings tab, and the `editor-change` handler
    that edits the active editor. */
module Plugin {
  import opened Wrappers
  import opened JsString
  import opened Timestamp
  import opened PluginSettings
  import opened HostEditor
  import opened InsertionRule

  class TimestampPlugin {
    var settings: TimestampSettings

    /** `onload`'s `loadSettings`: the persisted record (None when nothing
        was ever saved) merged over the defaults. */
    constructor (persisted: Option<Record>)
      ensures settings == LoadSettings(persisted)
    {
      settings := LoadSettings(persisted);
    }

    /** `saveSettings`: the record handed to the data store. */
    method SaveSettings() returns (saved: Record)
      ensures LoadSettings(Some(saved)) == settings
      ensures saved == ToRecord(settings)
      ensures saved.Keys == {FormatKey, StyleKey}
    {
      saved := ToRecord(settings);
      SaveLoadRoundTrip(settings);
    }

    /** The format field's change callback: only the format changes, and
        the record saved reloads as the new settings. */
    method SetFormat(value: string) returns (saved: Record)
      modifies this
      ensures settings == old(settings).(timestampFormat := value)
      ensures LoadSettings(Some(saved)) == settings
      ensures saved == ToRecord(settings)
    {
      settings := settings.(timestampFormat := value);
      saved := SaveSettings();
    }

    /** The style field's change callback: only the style changes, and
        the record saved reloads as the new settings. */
    method SetStyle(value: string) returns (saved: Record)
      modifies this
      ensures settings == old(settings).(timestampStyle := value)
      ensures LoadSettings(Some(saved)) == settings
      ensures saved == ToRecord(settings)
    {
      settings := settings.(timestampStyle := value);
      saved := SaveSettings();
    }

    /** The `editor-change` handler. `view` is the active view with the file
        text the vault read returned; `iso` is what `toISOString` gives
        for the current instant. The editor is left as it was unless
        the decision rule asks for an edit, which is then applied in place. */
    method OnEditorChange(editor: Editor, view: Option<View>, iso: string)
      requires editor.Valid()
      modifies editor
      ensures editor.Valid()
      ensures var edit := Decide(view, old(editor.cursor), old(editor.lines[editor.cursor.line]),
                                 settings.timestampStyle, iso);
        && (edit.None? ==> editor.lines == old(editor.lines) && editor.cursor == old(editor.cursor))
        && (edit.Some? ==> editor.lines == InsertText(old(editor.lines), edit.value.at, edit.value.text)
                           && editor.cursor == edit.value.cursorAfter)
    {
      if view.None? {
        return;
      }
      var file := view.value.file;
      if file.None? {
        return;
      }
      var content := file.value.content;
      if !Includes(content, Marker) {
        return;
      }
      var cursor := editor.cursor;
      var line := editor.lines[cursor.line];
      if cursor.ch == 0 && Trim(line) == "" {
        var timestamp := ShapeIsoTimestamp(iso);
        var formatted := FormatTimestamp(settings.timestampStyle, timestamp);
        assert Decide(view, cursor, line, settings.timestampStyle, iso)
          == Some(Edit(cursor, formatted + " ", Position(cursor.line, |formatted| + 1)));
        editor.ReplaceRange(formatted + " ", cursor);
        editor.SetCursor(Position(cursor.line, |formatted| + 1));
      }
    }
  }
}
