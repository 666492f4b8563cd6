/**
 * The markdown editor hook: the toolbar commands that splice text at the
 * selection and move the caret, the keyboard shortcuts that trigger them,
 * and the direct image upload that inserts a placeholder and later
 * replaces it with the uploaded image or an error marker.
 */
module MarkdownEditor {

  import opened Common
  import JsStrings
  import MarkdownEditorProvider

  datatype Command = Heading | Bold | Italic | Link | Code | UploadImage

  /** The text a command puts in place of the selection (`code` has no case and changes nothing). */
  function Replacement(cmd: Command, selected: string): string
    requires cmd != UploadImage && cmd != Code
  {
    match cmd
    case Heading => "## " + selected
    case Bold => "**" + selected + "**"
    case Italic => "*" + selected + "*"
    case Link => if selected != "" then "[" + selected + "](url)" else "[link text](url)"
  }

  /** The caret after a command, relative to the selection start. */
  function CaretOffset(cmd: Command, selected: string): nat
    requires cmd != UploadImage && cmd != Code
  {
    match cmd
    case Heading => |Replacement(cmd, selected)|
    case Bold => if selected != "" then |Replacement(cmd, selected)| else 2
    case Italic => if selected != "" then |Replacement(cmd, selected)| else 1
    case Link => |Replacement(cmd, selected)|
  }

  /** `updatedValue` after the `switch`. */
  function EditedValue(value: string, start: int, end: int, cmd: Command): string
    requires cmd != UploadImage
  {
    if cmd == Code then value
    else
      var selected := JsStrings.Substring(value, start, end);
      JsStrings.Substring(value, 0, start) + Replacement(cmd, selected) + JsStrings.SubstringFrom(value, end)
  }

  /** `newCursorPos` after the `switch`. */
  function EditedCaret(value: string, start: int, end: int, cmd: Command): int
    requires cmd != UploadImage
  {
    if cmd == Code then start else start + CaretOffset(cmd, JsStrings.Substring(value, start, end))
  }

  /**
   * `executeCommand(command)` on the editor `p`, whose textarea holds the
   * value and selection. `mounted` is `textareaRef.current` being set and
   * `hasOnChange` is `options.onChange` being given.
   */
  method ExecuteCommand(p: MarkdownEditorProvider.EditorProvider, cmd: Command, mounted: bool, hasOnChange: bool)
    modifies p
    ensures !mounted ==>
      p.value == old(p.value) && p.selectionStart == old(p.selectionStart) && p.selectionEnd == old(p.selectionEnd) &&
      p.uploaderOpen == old(p.uploaderOpen) && p.pendingCursorPosition == old(p.pendingCursorPosition)
    ensures mounted && cmd == UploadImage ==>
      p.value == old(p.value) && p.selectionStart == old(p.selectionStart) && p.selectionEnd == old(p.selectionEnd) &&
      p.uploaderOpen && p.pendingCursorPosition == old(p.selectionStart)
    ensures mounted && cmd != UploadImage ==>
      p.value == (if hasOnChange then EditedValue(old(p.value), old(p.selectionStart), old(p.selectionEnd), cmd) else old(p.value)) &&
      p.selectionStart == p.selectionEnd == EditedCaret(old(p.value), old(p.selectionStart), old(p.selectionEnd), cmd) &&
      p.uploaderOpen == old(p.uploaderOpen) && p.pendingCursorPosition == old(p.pendingCursorPosition)
  {
    if !mounted {
      return;
    }
    var selectionStart, selectionEnd := p.selectionStart, p.selectionEnd;
    var selectedText := JsStrings.Substring(p.value, selectionStart, selectionEnd);
    var updatedValue := p.value;
    var newCursorPos := selectionStart;
    match cmd {
      case Heading =>
        var headingText := "## " + selectedText;
        updatedValue := JsStrings.Substring(updatedValue, 0, selectionStart) + headingText + JsStrings.SubstringFrom(updatedValue, selectionEnd);
        newCursorPos := selectionStart + |headingText|;
      case Bold =>
        var boldText := "**" + selectedText + "**";
        updatedValue := JsStrings.Substring(updatedValue, 0, selectionStart) + boldText + JsStrings.SubstringFrom(updatedValue, selectionEnd);
        newCursorPos := selectionStart + (if selectedText != "" then |boldText| else 2);
      case Italic =>
        var italicText := "*" + selectedText + "*";
        updatedValue := JsStrings.Substring(updatedValue, 0, selectionStart) + italicText + JsStrings.SubstringFrom(updatedValue, selectionEnd);
        newCursorPos := selectionStart + (if selectedText != "" then |italicText| else 1);
      case Link =>
        var linkText := if selectedText != "" then "[" + selectedText + "](url)" else "[link text](url)";
        updatedValue := JsStrings.Substring(updatedValue, 0, selectionStart) + linkText + JsStrings.SubstringFrom(updatedValue, selectionEnd);
        newCursorPos := selectionStart + |linkText|;
      case Code =>
      case UploadImage =>
        p.OpenImageUploader(selectionStart);
        return;
    }
    if hasOnChange {
      p.value := updatedValue;
    }
    p.selectionStart, p.selectionEnd := newCursorPos, newCursorPos;
  }

  /** The `keydown` handler: with Ctrl (Cmd on a Mac) held in the focused textarea, b, i, h, k and u pick a command. */
  function KeyCommand(key: string, ctrlKey: bool, metaKey: bool, isMac: bool, focused: bool): (r: Option<Command>)
    ensures r.Some? ==> focused && (if isMac then metaKey else ctrlKey)
  {
    if !focused || !(if isMac then metaKey else ctrlKey) then None
    else
      var k := JsStrings.ToLower(key);
      if k == "b" then Some(Bold)
      else if k == "i" then Some(Italic)
      else if k == "h" then Some(Heading)
      else if k == "k" then Some(Link)
      else if k == "u" then Some(UploadImage)
      else None
  }

  // ---------------------------------------------------------------------
  // Image upload
  // ---------------------------------------------------------------------

  /** A dropped or pasted file, by its MIME type. */
  datatype File = File(mimeType: string)

  /** `file.type.startsWith("image/")`. */
  predicate IsImageFile(f: File) {
    JsStrings.StartsWith(f.mimeType, "image/")
  }

  const PLACEHOLDER_MARKDOWN := "![Uploading...](uploading)"
  const UPLOAD_FAILED_MARKDOWN := "\n![Upload failed](error)\n"

  function UploadedMarkdown(imageUrl: string): string {
    "\n![Uploaded image](" + imageUrl + ")\n"
  }

  /** How the upload ended: the returned keys, a failure answer, or a thrown error. */
  datatype UploadOutcome = Uploaded(keys: seq<string>) | Failed | Threw

  /** What replaces the placeholder; `imageUrl` is where the first key is served. */
  function PlaceholderReplacement(outcome: UploadOutcome, imageUrl: string): string {
    if outcome.Uploaded? && |outcome.keys| > 0 && outcome.keys[0] != "" then UploadedMarkdown(imageUrl)
    else UPLOAD_FAILED_MARKDOWN
  }

  /**
   * `handleDirectImageUpload(files, cursorPosition)` followed by the
   * delayed replacement, with no edit in between: the placeholder goes in
   * at the position, then its first occurrence is replaced by the uploaded
   * image or the failure marker. Without an image file nothing happens.
   * `providerRefAttached` is the provider's own `textareaRef` being set,
   * which decides whether the placeholder insertion moves the caret.
   */
  method HandleDirectImageUpload(p: MarkdownEditorProvider.EditorProvider, files: seq<File>, cursorPosition: int,
                                 outcome: UploadOutcome, imageUrl: string, mounted: bool, hasOnChange: bool,
                                 providerRefAttached: bool)
    modifies p
    ensures Filter(files, IsImageFile) == [] ==> p.value == old(p.value)
    ensures Filter(files, IsImageFile) != [] ==>
      var placed := MarkdownEditorProvider.InsertedImage(old(p.value), "uploading", "Uploading...", cursorPosition);
      p.value == if mounted && hasOnChange
                 then JsStrings.ReplaceFirst(placed, PLACEHOLDER_MARKDOWN, PlaceholderReplacement(outcome, imageUrl))
                 else placed
    ensures p.uploaderOpen == old(p.uploaderOpen) && p.pendingCursorPosition == old(p.pendingCursorPosition)
    ensures Filter(files, IsImageFile) != [] && providerRefAttached ==>
      p.selectionStart == p.selectionEnd == cursorPosition + |PLACEHOLDER_MARKDOWN|
    ensures Filter(files, IsImageFile) == [] || !providerRefAttached ==>
      p.selectionStart == old(p.selectionStart) && p.selectionEnd == old(p.selectionEnd)
  {
    var imageFiles := Filter(files, IsImageFile);
    if |imageFiles| == 0 {
      return;
    }
    p.InsertImageAtPosition("uploading", "Uploading...", cursorPosition, providerRefAttached);
    if mounted && hasOnChange {
      var currentValue := p.value;
      var replacement := PlaceholderReplacement(outcome, imageUrl);
      p.value := JsStrings.ReplaceFirst(currentValue, PLACEHOLDER_MARKDOWN, replacement);
    }
  }

  // ---------------------------------------------------------------------
  // Lemmas
  // ---------------------------------------------------------------------

  /**
   * For a selection inside the text, a text command keeps what lies before
   * the selection start and after its end, and puts the command's text in
   * between.
   */
  lemma CommandKeepsContext(value: string, start: int, end: int, cmd: Command)
    requires 0 <= start <= end <= |value|
    requires cmd != UploadImage && cmd != Code
    ensures var r := EditedValue(value, start, end, cmd);
      var rep := Replacement(cmd, value[start..end]);
      r == value[..start] + rep + value[end..] &&
      r[..start] == value[..start] && r[start + |rep|..] == value[end..]
  {
  }

  /** Where each command leaves the caret, for a selection inside the text. */
  lemma CommandCarets(value: string, start: int, end: int)
    requires 0 <= start <= end <= |value|
    ensures var n := end - start;
      EditedCaret(value, start, end, Heading) == start + 3 + n &&
      EditedCaret(value, start, end, Bold) == (if n > 0 then start + n + 4 else start + 2) &&
      EditedCaret(value, start, end, Italic) == (if n > 0 then start + n + 2 else start + 1) &&
      EditedCaret(value, start, end, Link) == (if n > 0 then start + n + 7 else start + 16) &&
      EditedCaret(value, start, end, Code) == start
  {
    assert |value[start..end]| == end - start;
  }

  /** With an empty selection the bold and italic carets sit between the markers. */
  lemma EmptyBoldCaretBetweenMarkers(value: string, at: int)
    requires 0 <= at <= |value|
    ensures var r := EditedValue(value, at, at, Bold);
      r[..EditedCaret(value, at, at, Bold)] == value[..at] + "**" &&
      r[EditedCaret(value, at, at, Bold)..] == "**" + value[at..]
    ensures var r := EditedValue(value, at, at, Italic);
      r[..EditedCaret(value, at, at, Italic)] == value[..at] + "*" &&
      r[EditedCaret(value, at, at, Italic)..] == "*" + value[at..]
  {
    assert value[at..at] == "";
    var rb := EditedValue(value, at, at, Bold);
    assert rb == (value[..at] + "**") + ("**" + value[at..]);
    var ri := EditedValue(value, at, at, Italic);
    assert ri == (value[..at] + "*") + ("*" + value[at..]);
  }

  /** Exactly Ctrl/Cmd with b, i, h, k or u (any case) picks a command; the mapping is fixed. */
  lemma ShortcutMap(key: string, isMac: bool)
    ensures KeyCommand("b", !isMac, isMac, isMac, true) == Some(Bold)
    ensures KeyCommand("B", !isMac, isMac, isMac, true) == Some(Bold)
    ensures KeyCommand("i", !isMac, isMac, isMac, true) == Some(Italic)
    ensures KeyCommand("I", !isMac, isMac, isMac, true) == Some(Italic)
    ensures KeyCommand("h", !isMac, isMac, isMac, true) == Some(Heading)
    ensures KeyCommand("H", !isMac, isMac, isMac, true) == Some(Heading)
    ensures KeyCommand("k", !isMac, isMac, isMac, true) == Some(Link)
    ensures KeyCommand("K", !isMac, isMac, isMac, true) == Some(Link)
    ensures KeyCommand("u", !isMac, isMac, isMac, true) == Some(UploadImage)
    ensures KeyCommand("U", !isMac, isMac, isMac, true) == Some(UploadImage)
    ensures KeyCommand(key, isMac, !isMac, isMac, true) == None
    ensures JsStrings.ToLower(key) !in ["b", "i", "h", "k", "u"] ==> KeyCommand(key, true, true, isMac, true) == None
  {
    assert JsStrings.ToLower("b") == "b" && JsStrings.ToLower("B") == "b";
    assert JsStrings.ToLower("i") == "i" && JsStrings.ToLower("h") == "h";
    assert JsStrings.ToLower("k") == "k" && JsStrings.ToLower("u") == "u";
    assert JsStrings.ToLower("I") == "i" && JsStrings.ToLower("H") == "h";
    assert JsStrings.ToLower("K") == "k" && JsStrings.ToLower("U") == "u";
  }

  /** The placeholder the upload inserts is exactly the text it later looks for. */
  lemma PlaceholderMatches()
    ensures MarkdownEditorProvider.ImageMarkdown("uploading", "Uploading...") == PLACEHOLDER_MARKDOWN
  {
  }

  lemma PlaceholderBang(i: nat)
    requires 0 < i < |PLACEHOLDER_MARKDOWN|
    ensures PLACEHOLDER_MARKDOWN[i] != '!'
  {
  }

  /** A placeholder cannot start before the one inserted at `position` when the text before it holds none. */
  lemma PlaceholderNotBefore(value: string, position: int, j: nat)
    requires 0 <= j < position <= |value|
    requires !JsStrings.OccursAt(value[..position], PLACEHOLDER_MARKDOWN, j)
    ensures !JsStrings.OccursAt(value[..position] + PLACEHOLDER_MARKDOWN + value[position..], PLACEHOLDER_MARKDOWN, j)
  {
    var P := PLACEHOLDER_MARKDOWN;
    var placed := value[..position] + P + value[position..];
    if j + |P| <= position {
      assert placed[j..j + |P|] == value[..position][j..j + |P|];
    } else {
      PlaceholderBang(position - j);
      assert placed[position] == '!';
      if j + |P| <= |placed| {
        assert placed[j..j + |P|][position - j] == placed[position];
      }
    }
  }

  /** The first placeholder of the text is the one inserted at `position`. */
  lemma PlaceholderIndex(value: string, position: int)
    requires 0 <= position <= |value|
    requires !JsStrings.Contains(value[..position], PLACEHOLDER_MARKDOWN)
    ensures JsStrings.IndexOf(value[..position] + PLACEHOLDER_MARKDOWN + value[position..], PLACEHOLDER_MARKDOWN) == position
  {
    var P := PLACEHOLDER_MARKDOWN;
    var placed := value[..position] + P + value[position..];
    assert JsStrings.OccursAt(placed, P, position) by {
      assert placed[position..position + |P|] == P;
    }
    forall j | 0 <= j < position
      ensures !JsStrings.OccursAt(placed, P, j)
    {
      PlaceholderNotBefore(value, position, j);
    }
  }

  /**
   * When the text before the position holds no placeholder, the delayed
   * replacement hits the placeholder just inserted: the outcome lands
   * exactly at the position and the rest of the text is kept.
   */
  lemma UploadReplacesOwnPlaceholder(value: string, position: int, replacement: string)
    requires 0 <= position <= |value|
    requires !JsStrings.Contains(value[..position], PLACEHOLDER_MARKDOWN)
    requires '$' !in replacement
    ensures var placed := MarkdownEditorProvider.InsertedImage(value, "uploading", "Uploading...", position);
      JsStrings.ReplaceFirst(placed, PLACEHOLDER_MARKDOWN, replacement) == value[..position] + replacement + value[position..]
  {
    var P := PLACEHOLDER_MARKDOWN;
    var placed := MarkdownEditorProvider.InsertedImage(value, "uploading", "Uploading...", position);
    assert placed == value[..position] + P + value[position..];
    PlaceholderIndex(value, position);
    JsStrings.ReplaceFirstLiteral(placed, P, replacement);
    assert placed[..position] == value[..position];
    assert placed[position + |P|..] == value[position..];
  }

  /** The failure marker is used whenever the upload did not give a non-empty first key. */
  lemma UploadOutcomes(keys: seq<string>, imageUrl: string)
    ensures |keys| > 0 && keys[0] != "" ==> PlaceholderReplacement(Uploaded(keys), imageUrl) == UploadedMarkdown(imageUrl)
    ensures keys == [] ==> PlaceholderReplacement(Uploaded(keys), imageUrl) == UPLOAD_FAILED_MARKDOWN
    ensures PlaceholderReplacement(Failed, imageUrl) == UPLOAD_FAILED_MARKDOWN
    ensures PlaceholderReplacement(Threw, imageUrl) == UPLOAD_FAILED_MARKDOWN
  {
  }
}
