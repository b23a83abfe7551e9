# Timestamps plugin: a verified model

A Dafny model of a small editor plugin that types a timestamp at the start
of every new blank line in documents that opt in. A document opts in by
containing the text `timestamps: true` anywhere. The model covers:

- the decision and edit rule of the plugin's `editor-change` handler;
- the string helpers it relies on (`includes`, `replace` with a string
  pattern, `trim`, and the regular-expression replace that cuts the
  fraction and `Z` off an ISO 8601 instant);
- the settings record: its defaults, the key-by-key merge on load, and the
  two setters of the settings tab.

Layout, one module per file:

| file | module | what |
|---|---|---|
| `wrappers.dfy` | `Wrappers` | `Option` |
| `js_string.dfy` | `JsString` | `indexOf`, `includes`, `replace` (first occurrence, with the `$` patterns of a replacement string), `trim` |
| `timestamp.dfy` | `Timestamp` | `getFormattedTimestamp` as a function of the ISO string, and `formatTimestamp` |
| `settings.dfy` | `PluginSettings` | the settings record, `DEFAULT_SETTINGS`, `Object.assign` merge, save record |
| `editor.dfy` | `HostEditor` | the host editor as a line buffer with a cursor (`replaceRange`, `setCursor`) |
| `insertion_rule.dfy` | `InsertionRule` | the handler's decision as a pure function `Decide` over a snapshot, with its properties |
| `plugin.dfy` | `Plugin` | the plugin class: settings field, setters, and the handler that edits the editor in place |

The handler is modelled twice, on purpose. `InsertionRule.Decide` gives
the edit as a value. `Plugin.TimestampPlugin.OnEditorChange` performs the
source's steps against an `Editor` object, and its postcondition says the
editor ends up exactly as `Decide` prescribes. The lemmas about `Decide`
therefore describe the handler.

The cursor column after an insertion is the formatted text's length plus
one. For style `[{timestamp}]` and timestamp `2024-01-15 10:30:00` the
bracketed text is 21 characters, so the cursor lands at column 22
(`InsertionRule.BracketedExample`).

The `timestampFormat` setting is stored, loaded and saved, but nothing reads
it when the timestamp is made (main.ts:61-66).

## Model

| member | source | states |
|---|---|---|
| `JsString.IndexOfFrom` | main.ts:69 | the result is -1 exactly when the pattern does not occur at or after the start index; otherwise it is an occurrence with none before it |
| `JsString.IndexOf` | main.ts:69 | -1 exactly when the pattern occurs nowhere; otherwise the leftmost occurrence |
| `JsString.Includes` | main.ts:32 | true exactly when the pattern occurs somewhere in the text (a plain substring test) |
| `JsString.Substitute` | main.ts:69 | expanding a replacement string that holds no `$` gives that string itself, so `replace` inserts it literally |
| `JsString.FirstOccurrenceUnique` | main.ts:69 | the leftmost occurrence of a pattern is unique and is the one `indexOf` finds |
| `JsString.ReplaceFirst` | main.ts:64 | `replace` with a string pattern leaves the text unchanged when the pattern does not occur, and otherwise replaces exactly the leftmost occurrence by the expanded replacement |
| `JsString.ReplaceFirstLiteral` | main.ts:64 | with a `$`-free replacement only the leftmost occurrence is replaced, later ones are kept, and the length changes by the length difference |
| `JsString.TrimStart` | main.ts:42 | the result is the suffix of the input that starts at its first non-white-space character; everything cut off is white space |
| `JsString.TrimEnd` | main.ts:42 | the result is the prefix of the input that ends at its last non-white-space character; everything cut off is white space |
| `JsString.Trim` | main.ts:42 | `trim` never lengthens the text, and a non-empty result neither starts nor ends with white space |
| `JsString.TrimEmptyIffBlank` | main.ts:42 | `line.trim() === ''` holds exactly when every character of the line is white space |
| `Timestamp.TrailingDigitCount` | main.ts:65 | counts the maximal run of ASCII digits at the end of the text |
| `Timestamp.TrailingDigitsAfter` | main.ts:65 | after a non-digit followed only by digits, the trailing digit run is exactly those digits |
| `Timestamp.StripFractionSuffix` | main.ts:65 | the result is a prefix of the input, and either the input itself or the input cut where `/\.\d+Z$/` matches |
| `Timestamp.StripFractionMatch` | main.ts:65 | where `/\.\d+Z$/` matches at a position, the text is cut at that position |
| `Timestamp.StripFractionNoMatch` | main.ts:65 | where `/\.\d+Z$/` does not match, the text is unchanged |
| `Timestamp.ShapeIsoTimestamp` | main.ts:61-66 | replacing `T` by a space and cutting the fraction never makes the timestamp longer than the ISO string |
| `Timestamp.ShapeIsoParts` | main.ts:61-66 | date `T` time `.` digits `Z` (date without `T`, at least one digit) becomes date, one space, time: only the first `T` is replaced and only the trailing fraction and `Z` go |
| `Timestamp.ShapeIsoInstant` | main.ts:61-66 | any `toISOString` output (four-digit or six-digit signed year) becomes its date and time joined by a space, 19 characters for a four-digit year, with no `$` in it |
| `Timestamp.ShapeIsoExample` | main.ts:63-65 | `2024-01-15T10:30:00.000Z` becomes `2024-01-15 10:30:00` |
| `Timestamp.FormatTimestamp` | main.ts:68-70 | a style without `{timestamp}` is returned unchanged |
| `Timestamp.FormatIsoInstant` | main.ts:61-69 | a `toISOString` instant formatted into a style puts date, space and time where the first placeholder stood |
| `Timestamp.FormatSubstitutesFirstToken` | main.ts:69 | only the first `{timestamp}` is replaced by the timestamp, and the length is the style's minus 11 plus the timestamp's |
| `Timestamp.FormatDefaultStyle` | main.ts:10 | the default style `{timestamp}` yields the timestamp itself |
| `Timestamp.FormatAroundToken` | main.ts:69 | text before the placeholder without `{` and text after it surround the timestamp unchanged |
| `PluginSettings.ToRecord` | main.ts:57-59 | the saved record holds exactly the two settings keys |
| `PluginSettings.Assign` | main.ts:54 | `Object.assign`: keys of the persisted record override, other keys keep the target's value, a null record changes nothing |
| `PluginSettings.LoadSettings` | main.ts:53-55 | each setting is the persisted value when its key is present and the default otherwise |
| `PluginSettings.LoadWithoutData` | main.ts:8-11 | loading with no persisted data, or an empty record, gives exactly `YYYY-MM-DD HH:mm:ss` and `{timestamp}` |
| `PluginSettings.LoadStyleOnly` | main.ts:54 | a record holding only a style overrides the style and keeps the default format |
| `PluginSettings.SaveLoadRoundTrip` | main.ts:53-59 | settings that are saved load back unchanged |
| `HostEditor.InsertText` | main.ts:45 | inserting keeps the line count and every other line, and puts the text between the two halves of the line split at the column |
| `HostEditor.Editor.ReplaceRange` | main.ts:45 | the buffer becomes the old one with the text inserted at the position; the cursor stays inside the document |
| `HostEditor.Editor.SetCursor` | main.ts:47 | the cursor moves to the position and the buffer is unchanged |
| `InsertionRule.OptedIn` | main.ts:25-32 | a document opts in exactly when there is a view with a file whose text contains `timestamps: true` |
| `InsertionRule.Decide` | main.ts:25-47 | an edit is produced exactly when the document opts in and the cursor is at column 0 of a line that trims to nothing; it inserts at the cursor, its text ends in a space, and the cursor goes to the same line right after the text |
| `InsertionRule.NoEditWithoutMarker` | main.ts:25-32 | without a view, a file, or the marker in the file's text, nothing is edited, wherever the cursor is |
| `InsertionRule.EditIffAtBlankLineStart` | main.ts:39-42 | in an opted-in document an edit happens if and only if the cursor is at column 0 and its line consists of white space only |
| `InsertionRule.EditPlacesFormattedText` | main.ts:43-47 | the edit inserts the formatted style plus one space at the cursor, and the cursor goes to the same line right after the inserted text |
| `InsertionRule.EditPrependsToLine` | main.ts:45-47 | applied to the buffer, the cursor's line becomes the inserted text followed by the old line, other lines are kept, and the new cursor lies inside the document right after the text |
| `InsertionRule.NoSecondInsertion` | main.ts:42-47 | the cursor the handler leaves is never at column 0, so the change event caused by its own edit inserts nothing |
| `InsertionRule.EditWithIsoInstant` | main.ts:43-45 | with a `toISOString` instant, the inserted text is the style with its first placeholder replaced by date, space, time, then one space |
| `InsertionRule.EditWithDefaultStyle` | main.ts:10 | with the default style the inserted text is the shaped timestamp and one space |
| `InsertionRule.EditWithoutToken` | main.ts:69 | a style that does not contain the placeholder is inserted verbatim followed by one space |
| `InsertionRule.EditAroundToken` | main.ts:43-47 | a style made of text without `{`, the placeholder, and any text inserts the first text, the timestamp, the second text and a space, and the cursor goes right after that space |
| `InsertionRule.EditWithBracketedStyle` | main.ts:43-47 | style `[{timestamp}]` inserts `[`, the timestamp, `] `, and the cursor goes three columns past the timestamp's length |
| `InsertionRule.BracketedExample` | main.ts:43-47 | style `[{timestamp}]` at 2024-01-15 10:30:00 inserts `[2024-01-15 10:30:00] ` and puts the cursor at column 22 |
| `InsertionRule.NoteExample` | main.ts:43-47 | style `NOTE` inserts `NOTE ` and puts the cursor at column 5 |
| `Plugin.TimestampPlugin.constructor` | main.ts:16-17 | after load the settings are the persisted record merged over the defaults |
| `Plugin.TimestampPlugin.SaveSettings` | main.ts:57-59 | the record handed to storage is the current settings' record, holds the two keys, and loads back as the current settings |
| `Plugin.TimestampPlugin.SetFormat` | main.ts:92-94 | only the format changes, the style is kept, and the record saved is the new settings' record and loads back as them |
| `Plugin.TimestampPlugin.SetStyle` | main.ts:102-104 | only the style changes, the format is kept, and the record saved is the new settings' record and loads back as them |
| `Plugin.TimestampPlugin.OnEditorChange` | main.ts:24-48 | the editor is left exactly as it was when `Decide` gives no edit, and otherwise gets the decided text inserted and the cursor moved as decided; the cursor stays inside the document |

`formatTimestamp` is a function of the style and the timestamp, so calling
it twice with the same inputs gives the same output by construction. No
separate lemma states this.

## Left out

- The host API (`registerEvent`, `workspace.on`, `MarkdownView`, `TFile`, `Editor`): the view and its file are a value, and the editor is a line buffer with a cursor.
- `vault.read` is asynchronous, and the user may edit between the read and the cursor read. The model takes the file's stored text as part of the view and does not model that race.
- The clock: `new Date().toISOString()` is a parameter `iso` of the handler.
- Persistence (`loadData`, `saveData`): the persisted record is a parameter of the constructor. What `saveSettings` would write is returned by the setters. Storage failures are not modelled.
- The settings tab's rendering (`display`, `createEl`, `Setting`, `addText`). Only the two field assignments and their save are modelled.
- Plugin.TimestampPlugin.OnEditorChange: the `if (!cursor) return` at main.ts:36 is not modelled, because the host editor always returns a cursor. The cursor is assumed to lie inside the document (`Editor.Valid`), so `getLine` always returns a line.
- HostEditor.Editor.ReplaceRange: text containing a line break stays inside the cursor's line. The host would split the line, and would then clip the column set by `setCursor`. This only matters for a style that contains a line break.
- HostEditor.Editor.ReplaceRange: the cursor is left where it was. How the host maps the cursor through the insertion is not modelled, because the handler sets it right afterwards.
- Strings are sequences of Unicode scalar values. JavaScript lengths and editor columns count UTF-16 code units, so with characters outside the Basic Multilingual Plane in the style the column differs.
- `trim` uses the ECMAScript WhiteSpace and LineTerminator characters listed in `JsString.IsJsWhiteSpace`, with the space separators as of current Unicode.
- PluginSettings.LoadSettings: persisted values are strings. Keys other than the two settings are dropped, where `Object.assign` would copy them into the settings object and save them again. A persisted non-string value (such as `null`) is not modelled.
- Plugin.TimestampPlugin.constructor: it stands for `onload`'s `loadSettings`. Before that call the source's `settings` field is unset; the model has no such state.
- Any reading of `timestampFormat` as a date pattern: the code never applies it.
