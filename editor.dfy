/**
 * The article editor: a plain textarea holding the article's HTML, a
 * selection in it, and toolbar actions that insert fixed HTML snippets
 * through two primitives, insert-at-cursor and wrap-selection. Each dialog
 * of the toolbar keeps its own fields.
 */
module Editor {
  import opened Strings

  /** The alignment select of the image dialog. */
  datatype Alignment = Left | Center | Right {
    /** The string the select stores. */
    function Name(): string {
      match this
      case Left => "left"
      case Center => "center"
      case Right => "right"
    }
  }

  /** The textarea's text and its selection `[start, end)`; `start == end` is a caret. */
  datatype Textarea = Textarea(value: string, start: nat, end: nat) {
    predicate Valid() {
      start <= end <= |value|
    }
  }

  /**
   * `insertAtCursor(text)`: the selection is replaced by `text` and the caret
   * lands right after it.
   */
  function Insert(t: Textarea, text: string): (r: Textarea)
    requires t.Valid()
    ensures r.Valid()
    ensures |r.value| == |t.value| - (t.end - t.start) + |text|
    ensures r.start == r.end == t.start + |text|
    ensures r.value[..t.start] == t.value[..t.start]
    ensures r.value[t.start..r.start] == text
    ensures r.value[r.start..] == t.value[t.end..]
  {
    var v := t.value[..t.start] + text + t.value[t.end..];
    assert v[t.start + |text|..] == t.value[t.end..];
    Textarea(v, t.start + |text|, t.start + |text|)
  }

  /**
   * `wrapSelection(before, after)`: the selected text is surrounded by
   * `before` and `after`, and stays selected.
   */
  function Wrap(t: Textarea, before: string, after: string): (r: Textarea)
    requires t.Valid()
    ensures r.Valid()
    ensures |r.value| == |t.value| + |before| + |after|
    ensures r.start == t.start + |before| && r.end - r.start == t.end - t.start
    ensures r.value[..t.start] == t.value[..t.start]
    ensures r.value[t.start..r.start] == before
    ensures r.value[r.start..r.end] == t.value[t.start..t.end]
    ensures r.value[r.end..r.end + |after|] == after
    ensures r.value[r.end + |after|..] == t.value[t.end..]
  {
    var selected := t.value[t.start..t.end];
    var v := t.value[..t.start] + (before + selected + after) + t.value[t.end..];
    var s := t.start + |before|;
    assert v[s..s + |selected|] == selected;
    assert v[s + |selected|..s + |selected| + |after|] == after;
    assert v[s + |selected| + |after|..] == t.value[t.end..];
    Textarea(v, s, s + |selected|)
  }

  /** Wrapping is inserting the wrapped text in place of the selection, except for the selection it leaves. */
  lemma WrapIsInsert(t: Textarea, before: string, after: string)
    requires t.Valid()
    ensures Wrap(t, before, after).value == Insert(t, before + t.value[t.start..t.end] + after).value
  {
    var w, i := Wrap(t, before, after), Insert(t, before + t.value[t.start..t.end] + after);
    assert w.value == w.value[..t.start] + w.value[t.start..w.start] + w.value[w.start..w.end]
                      + w.value[w.end..w.end + |after|] + w.value[w.end + |after|..];
    assert i.value == i.value[..t.start] + i.value[t.start..i.start] + i.value[i.start..];
  }

  /** Inserting nothing at a caret changes nothing; over a selection it deletes the selection. */
  lemma InsertNothing(t: Textarea)
    requires t.Valid()
    ensures Insert(t, "").value == t.value[..t.start] + t.value[t.end..]
    ensures t.start == t.end ==> Insert(t, "") == t
  {
    var r := Insert(t, "");
    assert r.value == r.value[..t.start] + r.value[r.start..];
    if t.start == t.end {
      assert t.value == t.value[..t.start] + t.value[t.end..];
    }
  }

  // ---------------------------------------------------------------------------
  // Snippet templates

  /** `<h${level}>Heading ${level}</h${level}>\n` */
  function HeadingHtml(level: nat): string {
    var n := NatToString(level);
    "<h" + n + ">Heading " + n + "</h" + n + ">\n"
  }

  /** A one-digit level is written with its digit. */
  lemma HeadingOfDigit(level: nat, digit: char)
    requires level < 10 && digit as int == '0' as int + level
    ensures HeadingHtml(level) == "<h" + [digit] + ">Heading " + [digit] + "</h" + [digit] + ">\n"
  {
    assert NatToString(level) == [digit];
  }

  /** The toolbar's three headings. */
  lemma ToolbarHeadings(level: nat)
    requires 1 <= level <= 3
    ensures level == 1 ==> HeadingHtml(level) == "<h1>Heading 1</h1>\n"
    ensures level == 2 ==> HeadingHtml(level) == "<h2>Heading 2</h2>\n"
    ensures level == 3 ==> HeadingHtml(level) == "<h3>Heading 3</h3>\n"
  {
    var digit := (('0' as int) + level) as char;
    HeadingOfDigit(level, digit);
  }

  /** The `img` class chosen by alignment; center is also the fallback arm. */
  function ImageClass(a: Alignment): string {
    match a
    case Left => "float-left mr-6 mb-4 max-w-sm"
    case Right => "float-right ml-6 mb-4 max-w-sm"
    case Center => "mx-auto block mt-0 mb-0 max-w-2xl"
  }

  /** The `figcaption` class chosen by alignment. */
  function CaptionClass(a: Alignment): string {
    match a
    case Left => "text-left"
    case Right => "text-right"
    case Center => "text-center"
  }

  /** Each alignment gets its own image class and its own caption class. */
  lemma AlignmentClassesDistinct(a: Alignment, b: Alignment)
    ensures ImageClass(a) == ImageClass(b) <==> a == b
    ensures CaptionClass(a) == CaptionClass(b) <==> a == b
  {
  }

  const FigureClose: string := "\n</figure>\n\n"

  /** The opening of the image block: the `figure` tag and the `img` element. */
  function FigureImage(url: string, alt: string, alignmentClass: string): string {
    FigureOpen + url + "\" alt=\"" + alt + FigureImageClass + alignmentClass + "\" />"
  }

  const FigureOpen: string := "<figure class=\"animate-fade-in mb-12 mt-12\">\n  <img src=\""
  const FigureImageClass: string :=
    "\" class=\"w-full rounded-lg shadow-md hover:shadow-lg transition-shadow duration-300 "

  /** The caption element of the image block. */
  function FigureCaption(caption: string, captionAlignment: string): string {
    "\n  <figcaption class=\"text-sm text-gray-500 mt-2 italic " + captionAlignment + "\">"
    + caption + "</figcaption>"
  }

  /** The whole image block; the caption element is there only for a non-empty caption. */
  function ImageBlock(url: string, alt: string, a: Alignment, caption: string): string {
    FigureImage(url, alt, ImageClass(a))
    + (if caption != "" then FigureCaption(caption, CaptionClass(a)) else "")
    + FigureClose
  }

  /**
   * The image block opens with the `img` element, always closes with
   * `\n</figure>\n\n`, and between the two holds the caption element when
   * the caption is non-empty and nothing when it is empty.
   */
  lemma ImageBlockShape(url: string, alt: string, a: Alignment, caption: string)
    ensures var r, head := ImageBlock(url, alt, a, caption), FigureImage(url, alt, ImageClass(a));
      && |head| + |FigureClose| <= |r|
      && r[..|head|] == head
      && r[|r| - |FigureClose|..] == FigureClose
      && (caption == "" <==> |r| == |head| + |FigureClose|)
      && (caption != "" ==> r[|head|..|r| - |FigureClose|] == FigureCaption(caption, CaptionClass(a)))
  {
    var r, head := ImageBlock(url, alt, a, caption), FigureImage(url, alt, ImageClass(a));
    var mid := if caption != "" then FigureCaption(caption, CaptionClass(a)) else "";
    assert r == head + mid + FigureClose;
    assert r[|head|..|r| - |FigureClose|] == mid;
  }

  /** The image-and-text block: image left, paragraph right. */
  function ImageTextBlock(url: string, alt: string, content: string): string {
    ImageTextOpen + url + "\" alt=\"" + alt + ImageTextMiddle + content + "</p>\n    </div>\n"
  }

  const ImageTextOpen: string := "<div class=\"flex flex-col md:flex-row gap-6 mb-8\">\n      <img src=\""
  const ImageTextMiddle: string :=
    "\" class=\"rounded-lg shadow-md hover:shadow-lg transition-shadow duration-300 md:w-1/2 mb-2 max-w-sm md:order-1 md:mr-auto\" />\n      <p class=\"flex-1 md:order-1 md:self-center\">"

  /**
   * The text-and-image block: paragraph left, image right. The paragraph's
   * class attribute is left without its closing quote, as in the source.
   */
  function TextImageBlock(url: string, alt: string, content: string): string {
    TextImageOpen + content + "</p>\n  <img src=\"" + url + "\" alt=\"" + alt + TextImageClose
  }

  const TextImageOpen: string :=
    "<div class=\"flex flex-col md:flex-row gap-6 mb-8\">\n    <p class=\"flex-1 md:order-1 md:self-center>"
  const TextImageClose: string :=
    "\" class=\"rounded-lg shadow-md hover:shadow-lg transition-shadow duration-300 md:w-1/2 mb-2 max-w-sm md:order-2 md:ml-auto\" />\n</div>\n\n"

  /** A fenced code block with its language class. */
  function CodeBlockHtml(language: string, code: string): string {
    "<pre><code class=\"language-" + language + "\">\n" + code + "\n</code></pre>\n\n"
  }

  /** Inline code. */
  function InlineCodeHtml(code: string): string {
    "<code>" + code + "</code>"
  }

  /** A link opening in a new tab. */
  function LinkHtml(url: string, text: string): string {
    "<a href=\"" + url + "\" target=\"_blank\" rel=\"noopener noreferrer\">" + text + "</a>"
  }

  // ---------------------------------------------------------------------------
  // Dialog state

  datatype ImageDialog = ImageDialog(open: bool, url: string, alt: string, alignment: Alignment, caption: string)
  /** Fields of the image-and-text and the text-and-image dialogs. */
  datatype MediaTextDialog = MediaTextDialog(open: bool, url: string, alt: string, content: string)
  datatype CodeBlockDialog = CodeBlockDialog(open: bool, content: string, language: string)
  datatype CodeDialog = CodeDialog(open: bool, content: string)
  datatype LinkDialog = LinkDialog(open: bool, text: string, url: string)

  const ImageDialogInitial := ImageDialog(false, "", "", Center, "")
  const MediaTextDialogInitial := MediaTextDialog(false, "", "", "")
  const CodeBlockDialogInitial := CodeBlockDialog(false, "", "javascript")
  const CodeDialogInitial := CodeDialog(false, "")
  const LinkDialogInitial := LinkDialog(false, "", "")

  /** All six dialogs at once. */
  datatype Dialogs = Dialogs(image: ImageDialog, imageText: MediaTextDialog, textImage: MediaTextDialog,
                             codeBlock: CodeBlockDialog, code: CodeDialog, link: LinkDialog)

  const DialogsInitial := Dialogs(ImageDialogInitial, MediaTextDialogInitial, MediaTextDialogInitial,
                                  CodeBlockDialogInitial, CodeDialogInitial, LinkDialogInitial)

  datatype DialogKind = ImageKind | ImageTextKind | TextImageKind | CodeBlockKind | CodeKind | LinkKind

  /** With the language select untouched, a code block is tagged as JavaScript. */
  lemma DefaultCodeLanguage(code: string)
    ensures CodeBlockHtml(CodeBlockDialogInitial.language, code)[..39] == "<pre><code class=\"language-javascript\">"
  {
  }

  // ---------------------------------------------------------------------------
  // The editor component

  class WysiwygEditor {
    /** The form's value, replaced through `onChange` on every edit. */
    var value: string
    /** The textarea's selection. */
    var selStart: nat
    var selEnd: nat
    /** Whether the textarea is mounted (`textareaRef.current` is set). */
    var mounted: bool

    var image: ImageDialog
    var imageText: MediaTextDialog
    var textImage: MediaTextDialog
    var codeBlock: CodeBlockDialog
    var code: CodeDialog
    var link: LinkDialog

    ghost predicate Valid()
      reads this
    {
      selStart <= selEnd <= |value|
    }

    function Area(): Textarea
      reads this
    {
      Textarea(value, selStart, selEnd)
    }

    function AllDialogs(): Dialogs
      reads this
    {
      Dialogs(image, imageText, textImage, codeBlock, code, link)
    }

    /** What inserting `text` leaves in the textarea: nothing changes while it is not mounted. */
    function AfterInsert(text: string): Textarea
      reads this
      requires Valid()
    {
      if mounted then Insert(Area(), text) else Area()
    }

    /** What wrapping the selection leaves in the textarea. */
    function AfterWrap(before: string, after: string): Textarea
      reads this
      requires Valid()
    {
      if mounted then Wrap(Area(), before, after) else Area()
    }

    constructor (initial: string, start: nat, end: nat, isMounted: bool)
      requires start <= end <= |initial|
      ensures Valid()
      ensures Area() == Textarea(initial, start, end) && mounted == isMounted
      ensures AllDialogs() == DialogsInitial
    {
      value, selStart, selEnd, mounted := initial, start, end, isMounted;
      image := ImageDialogInitial;
      imageText, textImage := MediaTextDialogInitial, MediaTextDialogInitial;
      codeBlock := CodeBlockDialogInitial;
      code := CodeDialogInitial;
      link := LinkDialogInitial;
    }

    /** The user types or moves the selection: the form takes the textarea's new value. */
    method Edit(newValue: string, start: nat, end: nat)
      requires Valid() && start <= end <= |newValue|
      modifies this
      ensures Valid()
      ensures Area() == Textarea(newValue, start, end)
      ensures mounted == old(mounted) && AllDialogs() == old(AllDialogs())
    {
      value, selStart, selEnd := newValue, start, end;
    }

    /** `onOpenChange` of one dialog: only its open flag changes, its fields are kept. */
    method SetDialogOpen(kind: DialogKind, isOpen: bool)
      requires Valid()
      modifies this
      ensures Valid()
      ensures Area() == old(Area()) && mounted == old(mounted)
      ensures AllDialogs() == match kind
        case ImageKind => old(AllDialogs()).(image := old(image).(open := isOpen))
        case ImageTextKind => old(AllDialogs()).(imageText := old(imageText).(open := isOpen))
        case TextImageKind => old(AllDialogs()).(textImage := old(textImage).(open := isOpen))
        case CodeBlockKind => old(AllDialogs()).(codeBlock := old(codeBlock).(open := isOpen))
        case CodeKind => old(AllDialogs()).(code := old(code).(open := isOpen))
        case LinkKind => old(AllDialogs()).(link := old(link).(open := isOpen))
    {
      match kind
      case ImageKind => image := image.(open := isOpen);
      case ImageTextKind => imageText := imageText.(open := isOpen);
      case TextImageKind => textImage := textImage.(open := isOpen);
      case CodeBlockKind => codeBlock := codeBlock.(open := isOpen);
      case CodeKind => code := code.(open := isOpen);
      case LinkKind => link := link.(open := isOpen);
    }

    /** The image dialog's inputs; the open flag is kept. */
    method EditImageFields(url: string, alt: string, alignment: Alignment, caption: string)
      requires Valid()
      modifies this
      ensures Valid()
      ensures Area() == old(Area()) && mounted == old(mounted)
      ensures AllDialogs() == old(AllDialogs()).(image := ImageDialog(old(image.open), url, alt, alignment, caption))
    {
      image := ImageDialog(image.open, url, alt, alignment, caption);
    }

    /** The inputs of the image-and-text dialog (`textFirst == false`) or of the text-and-image dialog. */
    method EditMediaTextFields(textFirst: bool, url: string, alt: string, content: string)
      requires Valid()
      modifies this
      ensures Valid()
      ensures Area() == old(Area()) && mounted == old(mounted)
      ensures AllDialogs() == if textFirst
        then old(AllDialogs()).(textImage := MediaTextDialog(old(textImage.open), url, alt, content))
        else old(AllDialogs()).(imageText := MediaTextDialog(old(imageText.open), url, alt, content))
    {
      if textFirst {
        textImage := MediaTextDialog(textImage.open, url, alt, content);
      } else {
        imageText := MediaTextDialog(imageText.open, url, alt, content);
      }
    }

    /** The code block dialog's inputs. */
    method EditCodeBlockFields(content: string, language: string)
      requires Valid()
      modifies this
      ensures Valid()
      ensures Area() == old(Area()) && mounted == old(mounted)
      ensures AllDialogs() == old(AllDialogs()).(codeBlock := CodeBlockDialog(old(codeBlock.open), content, language))
    {
      codeBlock := CodeBlockDialog(codeBlock.open, content, language);
    }

    /** The inline code dialog's input. */
    method EditCodeFields(content: string)
      requires Valid()
      modifies this
      ensures Valid()
      ensures Area() == old(Area()) && mounted == old(mounted)
      ensures AllDialogs() == old(AllDialogs()).(code := CodeDialog(old(code.open), content))
    {
      code := CodeDialog(code.open, content);
    }

    /** The link dialog's inputs. */
    method EditLinkFields(text: string, url: string)
      requires Valid()
      modifies this
      ensures Valid()
      ensures Area() == old(Area()) && mounted == old(mounted)
      ensures AllDialogs() == old(AllDialogs()).(link := LinkDialog(old(link.open), text, url))
    {
      link := LinkDialog(link.open, text, url);
    }

    /** `insertAtCursor`: a no-op while the textarea is not mounted. */
    method InsertAtCursor(text: string)
      requires Valid()
      modifies this
      ensures Valid()
      ensures Area() == old(AfterInsert(text))
      ensures mounted == old(mounted) && AllDialogs() == old(AllDialogs())
    {
      if !mounted {
        return;
      }
      var start, end := selStart, selEnd;
      value := value[..start] + text + value[end..];
      selStart, selEnd := start + |text|, start + |text|;
    }

    /** `wrapSelection`; `after` defaults to `before`. */
    method WrapSelection(before: string, after: string := before)
      requires Valid()
      modifies this
      ensures Valid()
      ensures Area() == old(AfterWrap(before, after))
      ensures mounted == old(mounted) && AllDialogs() == old(AllDialogs())
    {
      if !mounted {
        return;
      }
      var start, end := selStart, selEnd;
      var selectedText := value[start..end];
      var newText := before + selectedText + after;
      value := value[..start] + newText + value[end..];
      selStart, selEnd := start + |before|, start + |before| + |selectedText|;
    }

    method HandleBold()
      requires Valid()
      modifies this
      ensures Valid()
      ensures Area() == old(AfterWrap("<strong>", "</strong>"))
      ensures mounted == old(mounted) && AllDialogs() == old(AllDialogs())
    {
      WrapSelection("<strong>", "</strong>");
    }

    method HandleItalic()
      requires Valid()
      modifies this
      ensures Valid()
      ensures Area() == old(AfterWrap("<em>", "</em>"))
      ensures mounted == old(mounted) && AllDialogs() == old(AllDialogs())
    {
      WrapSelection("<em>", "</em>");
    }

    method HandleHeading(level: nat)
      requires Valid()
      modifies this
      ensures Valid()
      ensures Area() == old(AfterInsert(HeadingHtml(level)))
      ensures mounted == old(mounted) && AllDialogs() == old(AllDialogs())
    {
      InsertAtCursor(HeadingHtml(level));
    }

    /**
     * Inserts the image block when a URL is given, then resets the image
     * dialog (alignment back to center) and closes it; without a URL
     * nothing happens.
     */
    method HandleImageInsert()
      requires Valid()
      modifies this
      ensures Valid() && mounted == old(mounted)
      ensures old(image.url) == "" ==> Area() == old(Area()) && AllDialogs() == old(AllDialogs())
      ensures old(image.url) != "" ==>
        && Area() == old(AfterInsert(ImageBlock(image.url, image.alt, image.alignment, image.caption)))
        && AllDialogs() == old(AllDialogs()).(image := ImageDialogInitial)
    {
      if image.url == "" {
        return;
      }
      var alignmentClass := ImageClass(image.alignment);
      var captionAlignment := CaptionClass(image.alignment);
      var imageHtml := FigureImage(image.url, image.alt, alignmentClass);
      if image.caption != "" {
        imageHtml := imageHtml + FigureCaption(image.caption, captionAlignment);
      }
      imageHtml := imageHtml + FigureClose;
      assert imageHtml == ImageBlock(image.url, image.alt, image.alignment, image.caption);
      InsertAtCursor(imageHtml);
      image := ImageDialogInitial;
    }

    /** Needs a URL and text; inserts the image-and-text block and resets its dialog. */
    method HandleImageTextInsert()
      requires Valid()
      modifies this
      ensures Valid() && mounted == old(mounted)
      ensures old(imageText.url) == "" || old(imageText.content) == "" ==>
        Area() == old(Area()) && AllDialogs() == old(AllDialogs())
      ensures old(imageText.url) != "" && old(imageText.content) != "" ==>
        && Area() == old(AfterInsert(ImageTextBlock(imageText.url, imageText.alt, imageText.content)))
        && AllDialogs() == old(AllDialogs()).(imageText := MediaTextDialogInitial)
    {
      if imageText.url == "" || imageText.content == "" {
        return;
      }
      var html := ImageTextBlock(imageText.url, imageText.alt, imageText.content);
      InsertAtCursor(html);
      imageText := MediaTextDialogInitial;
    }

    /** Needs a URL and text; inserts the text-and-image block and resets its dialog. */
    method HandleTextImageInsert()
      requires Valid()
      modifies this
      ensures Valid() && mounted == old(mounted)
      ensures old(textImage.url) == "" || old(textImage.content) == "" ==>
        Area() == old(Area()) && AllDialogs() == old(AllDialogs())
      ensures old(textImage.url) != "" && old(textImage.content) != "" ==>
        && Area() == old(AfterInsert(TextImageBlock(textImage.url, textImage.alt, textImage.content)))
        && AllDialogs() == old(AllDialogs()).(textImage := MediaTextDialogInitial)
    {
      if textImage.url == "" || textImage.content == "" {
        return;
      }
      var html := TextImageBlock(textImage.url, textImage.alt, textImage.content);
      InsertAtCursor(html);
      textImage := MediaTextDialogInitial;
    }

    /** Needs code; inserts the code block and resets its dialog (language back to JavaScript). */
    method HandleCodeBlockInsert()
      requires Valid()
      modifies this
      ensures Valid() && mounted == old(mounted)
      ensures old(codeBlock.content) == "" ==> Area() == old(Area()) && AllDialogs() == old(AllDialogs())
      ensures old(codeBlock.content) != "" ==>
        && Area() == old(AfterInsert(CodeBlockHtml(codeBlock.language, codeBlock.content)))
        && AllDialogs() == old(AllDialogs()).(codeBlock := CodeBlockDialogInitial)
    {
      if codeBlock.content == "" {
        return;
      }
      InsertAtCursor(CodeBlockHtml(codeBlock.language, codeBlock.content));
      codeBlock := CodeBlockDialogInitial;
    }

    /** Needs code; inserts it as inline code and resets its dialog. */
    method HandleCodeInsert()
      requires Valid()
      modifies this
      ensures Valid() && mounted == old(mounted)
      ensures old(code.content) == "" ==> Area() == old(Area()) && AllDialogs() == old(AllDialogs())
      ensures old(code.content) != "" ==>
        && Area() == old(AfterInsert(InlineCodeHtml(code.content)))
        && AllDialogs() == old(AllDialogs()).(code := CodeDialogInitial)
    {
      if code.content == "" {
        return;
      }
      InsertAtCursor(InlineCodeHtml(code.content));
      code := CodeDialogInitial;
    }

    /** Needs a URL and link text; inserts the link and resets its dialog. */
    method HandleLinkInsert()
      requires Valid()
      modifies this
      ensures Valid() && mounted == old(mounted)
      ensures old(link.url) == "" || old(link.text) == "" ==>
        Area() == old(Area()) && AllDialogs() == old(AllDialogs())
      ensures old(link.url) != "" && old(link.text) != "" ==>
        && Area() == old(AfterInsert(LinkHtml(link.url, link.text)))
        && AllDialogs() == old(AllDialogs()).(link := LinkDialogInitial)
    {
      if link.url == "" || link.text == "" {
        return;
      }
      InsertAtCursor(LinkHtml(link.url, link.text));
      link := LinkDialogInitial;
    }
  }

  /** Wrapping a fully selected text surrounds it and keeps it selected. */
  lemma WrapAll(v: string, before: string, after: string)
    ensures Wrap(Textarea(v, 0, |v|), before, after) == Textarea(before + v + after, |before|, |before| + |v|)
  {
    var t := Textarea(v, 0, |v|);
    assert t.value[..0] == [] && t.value[0..|v|] == v && t.value[|v|..] == [];
  }

  /** Bolding the whole of "Hello" gives "<strong>Hello</strong>" with "Hello" still selected. */
  lemma BoldScenario()
    ensures Wrap(Textarea("Hello", 0, 5), "<strong>", "</strong>") == Textarea("<strong>Hello</strong>", 8, 13)
  {
    WrapAll("Hello", "<strong>", "</strong>");
    assert "<strong>" + "Hello" + "</strong>" == "<strong>Hello</strong>";
  }
}
