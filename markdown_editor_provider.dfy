/**
 * The markdown editor context: the controlled editor value with the
 * textarea's selection, the image uploader dialog and the cursor position
 * it was opened at, and the splice that inserts image markdown.
 */
module MarkdownEditorProvider {

  import opened Common
  import JsStrings

  /** `![alt](url)`. */
  function ImageMarkdown(url: string, alt: string): (md: string)
    ensures |md| == |alt| + |url| + 5
  {
    "![" + alt + "](" + url + ")"
  }

  /** `value.substring(0, position) + imageMarkdown + value.substring(position)`. */
  function InsertedImage(value: string, url: string, alt: string, position: int): string {
    JsStrings.Substring(value, 0, position) + ImageMarkdown(url, alt) + JsStrings.SubstringFrom(value, position)
  }

  const UPLOADED_IMAGE_ALT := "Uploaded image"

  /**
   * The provider's state together with the textarea it renders: the value
   * last handed to `onChange`, the textarea selection, the uploader dialog
   * and `pendingCursorPosition`.
   */
  class EditorProvider {
    var value: string
    var selectionStart: int
    var selectionEnd: int
    var uploaderOpen: bool
    var pendingCursorPosition: int

    constructor(value0: string)
      ensures value == value0 && selectionStart == 0 && selectionEnd == 0
      ensures !uploaderOpen && pendingCursorPosition == 0
    {
      value := value0;
      selectionStart := 0;
      selectionEnd := 0;
      uploaderOpen := false;
      pendingCursorPosition := 0;
    }

    /** `openImageUploader(cursorPosition)`: remember the position and open the dialog. */
    method OpenImageUploader(cursorPosition: int)
      modifies this
      ensures pendingCursorPosition == cursorPosition && uploaderOpen
      ensures value == old(value) && selectionStart == old(selectionStart) && selectionEnd == old(selectionEnd)
    {
      pendingCursorPosition := cursorPosition;
      uploaderOpen := true;
    }

    /**
     * `insertImageAtPosition(url, alt, position)`: splice the markdown in.
     * The caret is put after it only when the provider's own `textareaRef`
     * is attached (`refAttached`); otherwise the selection stays.
     */
    method InsertImageAtPosition(url: string, alt: string, position: int, refAttached: bool)
      modifies this
      ensures value == InsertedImage(old(value), url, alt, position)
      ensures refAttached ==> selectionStart == selectionEnd == position + |ImageMarkdown(url, alt)|
      ensures !refAttached ==> selectionStart == old(selectionStart) && selectionEnd == old(selectionEnd)
      ensures uploaderOpen == old(uploaderOpen) && pendingCursorPosition == old(pendingCursorPosition)
    {
      var imageMarkdown := ImageMarkdown(url, alt);
      value := JsStrings.Substring(value, 0, position) + imageMarkdown + JsStrings.SubstringFrom(value, position);
      if refAttached {
        var newCursorPos := position + |imageMarkdown|;
        selectionStart, selectionEnd := newCursorPos, newCursorPos;
      }
    }

    /**
     * `handleImageUploadComplete(file)`, given the URL the file is served
     * at: insert it at the remembered position and close the dialog.
     */
    method HandleImageUploadComplete(imageUrl: string, refAttached: bool)
      modifies this
      ensures value == InsertedImage(old(value), imageUrl, UPLOADED_IMAGE_ALT, old(pendingCursorPosition))
      ensures !uploaderOpen && pendingCursorPosition == old(pendingCursorPosition)
      ensures refAttached ==>
        selectionStart == selectionEnd == old(pendingCursorPosition) + |ImageMarkdown(imageUrl, UPLOADED_IMAGE_ALT)|
      ensures !refAttached ==> selectionStart == old(selectionStart) && selectionEnd == old(selectionEnd)
    {
      InsertImageAtPosition(imageUrl, UPLOADED_IMAGE_ALT, pendingCursorPosition, refAttached);
      uploaderOpen := false;
    }
  }

  /** `useMarkdownEditorContext()`: the context, or the error thrown outside a provider. */
  datatype ContextLookup<C> = Provided(context: C) | Throws(message: string)

  const OUTSIDE_PROVIDER := "useMarkdownEditorContext must be used within a MarkdownEditorProvider"

  function UseMarkdownEditorContext<C>(context: Option<C>): (r: ContextLookup<C>)
    ensures r.Throws? <==> context.None?
    ensures r.Throws? ==> r.message == OUTSIDE_PROVIDER
    ensures r.Provided? ==> context == Some(r.context)
  {
    if context.None? then Throws(OUTSIDE_PROVIDER) else Provided(context.value)
  }

  // ---------------------------------------------------------------------
  // Lemmas
  // ---------------------------------------------------------------------

  /**
   * Inside the text, the insertion keeps everything before and after the
   * position and puts exactly the image markdown between them.
   */
  lemma InsertKeepsText(value: string, url: string, alt: string, position: int)
    requires 0 <= position <= |value|
    ensures var r := InsertedImage(value, url, alt, position);
      var md := ImageMarkdown(url, alt);
      |r| == |value| + |md| &&
      r[..position] == value[..position] &&
      r[position..position + |md|] == md &&
      r[position + |md|..] == value[position..]
  {
  }

  /** A position past either end is clamped: the markdown goes at the start or at the end. */
  lemma InsertClamps(value: string, url: string, alt: string, position: int)
    ensures position <= 0 ==> InsertedImage(value, url, alt, position) == ImageMarkdown(url, alt) + value
    ensures position >= |value| ==> InsertedImage(value, url, alt, position) == value + ImageMarkdown(url, alt)
  {
    if position <= 0 {
      assert JsStrings.Substring(value, 0, position) == [];
    }
  }
}
