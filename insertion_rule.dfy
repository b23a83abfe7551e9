/** The decision of the `editor-change` handler, on a snapshot: the view
    (and its file's stored text), the cursor, the text of the cursor's
    line, the style template and the ISO instant the clock gives. The
    result is the edit to apply, if any. */
module InsertionRule {
  import opened Wrappers
  import opened JsString
  import opened Timestamp
  import opened HostEditor

  /** The opt-in marker, looked for anywhere in the document. */
  const Marker := "timestamps: true"

  /** A file, carrying the full text the vault read returns for it. */
  datatype StoredFile = StoredFile(content: string)

  /** The active Markdown view and the file it shows, if any. */
  datatype View = View(file: Option<StoredFile>)

  /** Insert `text` at `at`, then put the cursor at `cursorAfter`. */
  datatype Edit = Edit(at: Position, text: string, cursorAfter: Position)

  /** The document opts in: its stored text contains the marker. */
  predicate OptedIn(view: Option<View>): (r: bool)
    ensures r <==> (view.Some? && view.value.file.Some?
                    && exists j :: OccursAt(view.value.file.value.content, Marker, j))
  {
    view.Some? && view.value.file.Some? && Includes(view.value.file.value.content, Marker)
  }

  /** An edit is produced exactly when the document opts in and the cursor
      is at column 0 of a line that trims to nothing; the text goes in at
      the cursor, and the cursor ends on the same line right after it. */
  function Decide(view: Option<View>, cursor: Position, line: string, style: string, iso: string): (r: Option<Edit>)
    ensures r.Some? <==> OptedIn(view) && cursor.ch == 0 && Trim(line) == ""
    ensures r.Some? ==> r.value.at == cursor && r.value.cursorAfter == Position(cursor.line, |r.value.text|)
    ensures r.Some? ==> |r.value.text| > 0 && r.value.text[|r.value.text| - 1] == ' '
  {
    if view.None? then None
    else if view.value.file.None? then None
    else if !Includes(view.value.file.value.content, Marker) then None
    else if cursor.ch == 0 && Trim(line) == "" then
      var formatted := FormatTimestamp(style, ShapeIsoTimestamp(iso));
      Some(Edit(cursor, formatted + " ", Position(cursor.line, |formatted| + 1)))
    else None
  }

  /** Without the marker (or without a view or file) nothing is edited,
      wherever the cursor is. */
  lemma NoEditWithoutMarker(view: Option<View>, cursor: Position, line: string, style: string, iso: string)
    requires view.Some? && view.value.file.Some? ==>
      forall j :: !OccursAt(view.value.file.value.content, Marker, j)
    ensures Decide(view, cursor, line, style, iso) == None
  {
  }

  /** In an opted-in document, an edit happens exactly when the cursor is at
      column 0 of a line made only of white space. */
  lemma EditIffAtBlankLineStart(view: Option<View>, cursor: Position, line: string, style: string, iso: string)
    requires OptedIn(view)
    ensures Decide(view, cursor, line, style, iso).Some? <==> cursor.ch == 0 && IsBlank(line)
  {
    TrimEmptyIffBlank(line);
  }

  /** The edit inserts the formatted style and one space at the cursor and
      leaves the cursor on the same line, right after the inserted text. */
  lemma EditPlacesFormattedText(view: Option<View>, cursor: Position, line: string, style: string, iso: string)
    requires Decide(view, cursor, line, style, iso).Some?
    ensures var e := Decide(view, cursor, line, style, iso).value;
      && e.at == cursor && e.at.ch == 0
      && e.text == FormatTimestamp(style, ShapeIsoTimestamp(iso)) + " "
      && e.cursorAfter.line == cursor.line && e.cursorAfter.ch == |e.text|
  {
  }

  /** Applied to the buffer, the edit leaves every other line alone and
      turns the cursor's line into the inserted text followed by the old
      line; the new cursor lies inside the document. */
  lemma EditPrependsToLine(lines: seq<string>, view: Option<View>, cursor: Position, style: string, iso: string)
    requires InDocument(lines, cursor)
    requires Decide(view, cursor, lines[cursor.line], style, iso).Some?
    ensures var e := Decide(view, cursor, lines[cursor.line], style, iso).value;
      var after := InsertText(lines, e.at, e.text);
      && (forall i :: 0 <= i < |lines| && i != cursor.line ==> after[i] == lines[i])
      && after[cursor.line] == e.text + lines[cursor.line]
      && InDocument(after, e.cursorAfter)
      && after[cursor.line][..e.cursorAfter.ch] == e.text
  {
    var e := Decide(view, cursor, lines[cursor.line], style, iso).value;
    var after := InsertText(lines, e.at, e.text);
    assert after[cursor.line] == after[cursor.line][..|e.text|] + after[cursor.line][|e.text|..];
  }

  /** The handler also sees its own edit; the cursor it leaves behind is
      never at column 0, so it does not insert a second time. */
  lemma NoSecondInsertion(view: Option<View>, cursor: Position, line: string, style: string, iso: string,
                          view': Option<View>, line': string, style': string, iso': string)
    requires Decide(view, cursor, line, style, iso).Some?
    ensures Decide(view', Decide(view, cursor, line, style, iso).value.cursorAfter, line', style', iso') == None
  {
  }

  /** With a `toISOString` instant and the placeholder first at `i`, the
      inserted text is the style with the placeholder replaced by the date
      and time separated by a space, then one space. */
  lemma EditWithIsoInstant(view: Option<View>, cursor: Position, line: string, style: string, iso: string, i: int)
    requires Decide(view, cursor, line, style, iso).Some?
    requires IsIsoInstant(iso)
    requires IsFirstOccurrence(style, Token, i)
    ensures var n := |iso| - 14;
      Decide(view, cursor, line, style, iso).value.text
        == style[..i] + (iso[..n] + " " + iso[n + 1..n + 9]) + style[i + 11..] + " "
  {
    EditPlacesFormattedText(view, cursor, line, style, iso);
    FormatIsoInstant(style, iso, i);
  }

  /** The default style inserts the shaped timestamp and a space. */
  lemma EditWithDefaultStyle(view: Option<View>, cursor: Position, line: string, iso: string)
    requires Decide(view, cursor, line, Token, iso).Some?
    requires IsIsoInstant(iso)
    ensures Decide(view, cursor, line, Token, iso).value.text == ShapeIsoTimestamp(iso) + " "
  {
    ShapeIsoInstant(iso);
    FormatDefaultStyle(ShapeIsoTimestamp(iso));
  }

  /** A style without the placeholder, such as `NOTE`, is inserted as it
      is, followed by a space. */
  lemma EditWithoutToken(view: Option<View>, cursor: Position, line: string, style: string, iso: string)
    requires Decide(view, cursor, line, style, iso).Some?
    requires !Includes(style, Token)
    ensures Decide(view, cursor, line, style, iso).value.text == style + " "
  {
    EditPlacesFormattedText(view, cursor, line, style, iso);
  }

  /** A style made of text without `{`, the placeholder, and any text:
      the timestamp stands between the two, a space follows, and the
      cursor ends right after that space. */
  lemma EditAroundToken(view: Option<View>, cursor: Position, line: string, before: string, after: string, iso: string)
    requires '{' !in before
    requires Decide(view, cursor, line, before + Token + after, iso).Some?
    requires '$' !in ShapeIsoTimestamp(iso)
    ensures var e := Decide(view, cursor, line, before + Token + after, iso).value;
      && e.text == before + ShapeIsoTimestamp(iso) + after + " "
      && e.cursorAfter == Position(cursor.line, |before| + |ShapeIsoTimestamp(iso)| + |after| + 1)
  {
    FormatAroundToken(before, after, ShapeIsoTimestamp(iso));
    EditPlacesFormattedText(view, cursor, line, before + Token + after, iso);
  }

  /** The style `[{timestamp}]` puts the timestamp in brackets; the
      cursor ends three columns past the timestamp's length. */
  lemma EditWithBracketedStyle(view: Option<View>, cursor: Position, line: string, open: string, close: string, iso: string)
    requires open == "[" && close == "]"
    requires Decide(view, cursor, line, open + Token + close, iso).Some?
    requires '$' !in ShapeIsoTimestamp(iso)
    ensures var e := Decide(view, cursor, line, open + Token + close, iso).value;
      && e.text == open + ShapeIsoTimestamp(iso) + close + " "
      && e.cursorAfter == Position(cursor.line, |ShapeIsoTimestamp(iso)| + 3)
  {
    EditAroundToken(view, cursor, line, open, close, iso);
  }

  /** Style `[{timestamp}]` at 10:30:00 on 15 January 2024: the text
      `[2024-01-15 10:30:00] ` is inserted and the cursor goes to column 22
      (the bracketed timestamp is 21 characters long). */
  lemma BracketedExample(view: Option<View>, cursor: Position, line: string,
                          open: string, close: string, date: string, time: string, iso: string)
    requires open == "[" && close == "]"
    requires date == "2024-01-15" && time == "10:30:00"
    requires iso == date + "T" + time + ".000Z"
    requires Decide(view, cursor, line, open + Token + close, iso).Some?
    ensures Decide(view, cursor, line, open + Token + close, iso).value.text
      == open + (date + " " + time) + close + " "
    ensures Decide(view, cursor, line, open + Token + close, iso).value.cursorAfter == Position(cursor.line, 22)
  {
    ShapeIsoExample(date, time, iso);
    EditAroundToken(view, cursor, line, open, close, iso);
  }

  /** Style `NOTE` (no placeholder): the text `NOTE ` is inserted. */
  lemma NoteExample(view: Option<View>, cursor: Position, line: string, style: string, iso: string)
    requires style == "NOTE"
    requires Decide(view, cursor, line, style, iso).Some?
    ensures Decide(view, cursor, line, style, iso).value.text == "NOTE "
    ensures Decide(view, cursor, line, style, iso).value.cursorAfter == Position(cursor.line, 5)
  {
    EditWithoutToken(view, cursor, line, style, iso);
  }
}
