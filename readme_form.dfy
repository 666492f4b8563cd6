/**
 * The profile README editor in the dashboard settings: its toolbar wraps
 * the selection in heading, bold or italic markers and keeps the same
 * characters selected afterwards.
 */
module ReadmeForm {

  import opened Common
  import JsStrings

  /** The textarea bound to the form's `profile_readme` field. */
  class ReadmeEditor {
    var text: string
    var selectionStart: int
    var selectionEnd: int

    /** A browser keeps the selection inside the text and in order. */
    predicate Valid()
      reads this
    {
      0 <= selectionStart <= selectionEnd <= |text|
    }

    constructor (text: string)
      ensures Valid()
      ensures this.text == text && selectionStart == selectionEnd == |text|
    {
      this.text := text;
      selectionStart, selectionEnd := |text|, |text|;
    }

    /**
     * `executeCommand(command)`: "heading", "bold" and "italic" wrap the
     * selection and shift both selection ends past the opening marker;
     * any other command, or no mounted textarea, changes nothing.
     */
    method ExecuteCommand(command: string, mounted: bool)
      requires Valid()
      modifies this
      ensures Valid()
      ensures !mounted || Marker(command).None? ==>
        text == old(text) && selectionStart == old(selectionStart) && selectionEnd == old(selectionEnd)
      ensures mounted && Marker(command).Some? ==>
        var m := Marker(command).value;
        text == Wrapped(old(text), old(selectionStart), old(selectionEnd), m) &&
        selectionStart == old(selectionStart) + |m.0| && selectionEnd == old(selectionEnd) + |m.0|
    {
      if !mounted {
        return;
      }
      var start, end := selectionStart, selectionEnd;
      var selectedText := JsStrings.Substring(text, start, end);
      var newText := "";
      var newStart, newEnd := start, end;
      if command == "heading" {
        newText := JsStrings.Substring(text, 0, start) + "## " + selectedText + JsStrings.SubstringFrom(text, end);
        newStart, newEnd := start + 3, end + 3;
      } else if command == "bold" {
        newText := JsStrings.Substring(text, 0, start) + "**" + selectedText + "**" + JsStrings.SubstringFrom(text, end);
        newStart, newEnd := start + 2, end + 2;
      } else if command == "italic" {
        newText := JsStrings.Substring(text, 0, start) + "*" + selectedText + "*" + JsStrings.SubstringFrom(text, end);
        newStart, newEnd := start + 1, end + 1;
      } else {
        return;
      }
      text := newText;
      selectionStart, selectionEnd := newStart, newEnd;
    }
  }

  /** The opening and closing markers of a command. */
  function Marker(command: string): (r: Option<(string, string)>)
    ensures r.Some? <==> command in ["heading", "bold", "italic"]
  {
    if command == "heading" then Some(("## ", ""))
    else if command == "bold" then Some(("**", "**"))
    else if command == "italic" then Some(("*", "*"))
    else None
  }

  /** The text with the selection between the markers. */
  function Wrapped(text: string, start: int, end: int, m: (string, string)): string
    requires 0 <= start <= end <= |text|
  {
    text[..start] + m.0 + text[start..end] + m.1 + text[end..]
  }

  /**
   * Wrapping keeps the text before and after the selection, and the
   * shifted selection covers exactly the characters that were selected.
   */
  lemma WrapKeepsSelection(text: string, start: int, end: int, command: string)
    requires 0 <= start <= end <= |text|
    requires Marker(command).Some?
    ensures var m := Marker(command).value;
      var t := Wrapped(text, start, end, m);
      end + |m.0| + |m.1| <= |t| &&
      t[..start] == text[..start] &&
      t[start..start + |m.0|] == m.0 &&
      t[start + |m.0|..end + |m.0|] == text[start..end] &&
      t[end + |m.0|..end + |m.0| + |m.1|] == m.1 &&
      t[end + |m.0| + |m.1|..] == text[end..]
  {
    var m := Marker(command).value;
    var t := Wrapped(text, start, end, m);
    assert t == text[..start] + (m.0 + (text[start..end] + (m.1 + text[end..])));
  }

  /** Heading adds three characters, bold four, italic two. */
  lemma WrapGrowth(text: string, start: int, end: int)
    requires 0 <= start <= end <= |text|
    ensures |Wrapped(text, start, end, Marker("heading").value)| == |text| + 3
    ensures |Wrapped(text, start, end, Marker("bold").value)| == |text| + 4
    ensures |Wrapped(text, start, end, Marker("italic").value)| == |text| + 2
  {
  }
}
