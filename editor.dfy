/** The part of the host editor the plugin touches: a buffer of lines and a
    cursor, read directly and changed by `replaceRange` and `setCursor`. */
module HostEditor {

  /** An editor position: a line index and a column within that line. */
  datatype Position = Position(line: nat, ch: nat)

  predicate InDocument(lines: seq<string>, pos: Position) {
    pos.line < |lines| && pos.ch <= |lines[pos.line]|
  }

  /** The buffer after `text` is inserted at `at`. */
  function InsertText(lines: seq<string>, at: Position, text: string): (r: seq<string>)
    requires InDocument(lines, at)
    ensures |r| == |lines|
    ensures forall i :: 0 <= i < |lines| && i != at.line ==> r[i] == lines[i]
    ensures |r[at.line]| == |lines[at.line]| + |text|
    ensures r[at.line][..at.ch] == lines[at.line][..at.ch]
    ensures r[at.line][at.ch..at.ch + |text|] == text
    ensures r[at.line][at.ch + |text|..] == lines[at.line][at.ch..]
  {
    var old_line := lines[at.line];
    var new_line := old_line[..at.ch] + text + old_line[at.ch..];
    assert new_line[at.ch..at.ch + |text|] == text;
    assert new_line[at.ch + |text|..] == old_line[at.ch..];
    lines[at.line := new_line]
  }

  class Editor {
    var lines: seq<string>
    var cursor: Position

    /** The cursor always lies inside the document. */
    ghost predicate Valid()
      reads this
    {
      InDocument(lines, cursor)
    }

    constructor (lines: seq<string>, cursor: Position)
      requires InDocument(lines, cursor)
      ensures Valid() && this.lines == lines && this.cursor == cursor
    {
      this.lines := lines;
      this.cursor := cursor;
    }

    /** `replaceRange(text, from)`: inserts `text` at `from`. */
    method ReplaceRange(text: string, from: Position)
      requires Valid() && InDocument(lines, from)
      modifies this
      ensures Valid()
      ensures lines == InsertText(old(lines), from, text)
      ensures cursor == old(cursor)
    {
      lines := InsertText(lines, from, text);
    }

    /** `setCursor(pos)`. */
    method SetCursor(pos: Position)
      requires InDocument(lines, pos)
      modifies this
      ensures Valid()
      ensures cursor == pos && lines == old(lines)
    {
      cursor := pos;
    }
  }
}
