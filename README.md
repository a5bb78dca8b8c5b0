# Conscience front-end: a Dafny model of its string and list logic

Conscience is a magazine site with a React front-end. Most of the front-end
renders JSX. The logic in it is small, sequential string and list work, and
this project models that logic and proves what it does:

- **Article editor** (`Editor`, in `editor.dfy`). The editor is a textarea
  holding HTML, with a selection `[start, end)` and one set of fields per
  toolbar dialog. The class `Editor.WysiwygEditor` mirrors it, with two
  primitives:
  - insert-at-cursor replaces the selection;
  - wrap-selection surrounds the selection and keeps it selected.

  Every toolbar action is a method. Bold and italic wrap the selection,
  and a heading inserts its template; these have no dialog and no guard.
  Each dialog action (image, image and text, text and image, code block,
  inline code, link) is guarded by its dialog's required fields, inserts a
  fixed HTML template, and then resets its own dialog. The templates are
  pure functions.
- **Newline post-processor** (`ContentUtils`). The processor splits the
  article HTML into text parts and tag parts. A tag part is a match of
  `<[^>]*>`. Each text part holding a line break becomes its trimmed,
  non-blank lines joined by `<br />`. Everything else is copied.
- **Magazine lists** (`Magazines`). This covers:
  - the search filter and the category filter of the magazines page;
  - the list of category buttons;
  - the featured list and the searched list of the home page;
  - the count line.
- **Authors page** (`Authors`). This covers:
  - the dictionary that folds the `/authors/` response by username;
  - the name search;
  - the initials shown when an avatar is missing;
  - the three-badge rule and the plural rules.
- **Content image** (`ContentImage`). The alignment classes and the caption
  rule of the rendered image component.
- **CSRF token** (`Csrf`). The `csrftoken` cookie parser. The cookie string
  is a parameter. The regular expression is written out as a scanner and
  proved against a declarative description of a cookie entry.
- **Magazine card links** (`MagazineCard`). The author link slug and the
  magazine link.

The shared string built-ins are in `Strings`: ASCII `toLowerCase` and
`toUpperCase`, `trim`, `includes`, `split` on one character, and `join`.
The order-preserving `filter` and `Set` deduplication are in `Seqs`, and
`Option` is in `Wrappers`.

## Model

| member | source | states |
|---|---|---|
| Strings.Lower | src/pages/MagazinesPage.tsx:54-56 | lower-casing keeps the length and maps each character through ASCII lower-casing |
| Strings.Upper | src/pages/AuthorsPage.tsx:100 | upper-casing keeps the length and maps each character through ASCII upper-casing |
| Strings.UpperAppend | src/pages/AuthorsPage.tsx:100 | upper-casing a concatenation is the concatenation of the upper-cased halves |
| Strings.Includes | src/pages/MagazinesPage.tsx:54-56 | `includes`: the needle occurs at some offset of the string; `Strings.IncludesEmpty` states the empty-needle case that the empty search relies on |
| Strings.IncludesEmpty | src/pages/MagazinesPage.tsx:54-56 | every string includes the empty string, so an empty search matches everything |
| Strings.Trim | src/utils/contentUtils.tsx:19 | the result is a slice of the input preceded and followed only by whitespace; it neither starts nor ends with whitespace; it is empty exactly when the input is all whitespace |
| Strings.IndexOf | src/components/MagazineCard.tsx:59 | the index holds the character and no earlier position does |
| Strings.Split | src/utils/contentUtils.tsx:16 | at least one piece; exactly one piece iff the separator is absent, and then the piece is the input; no piece holds the separator; joining the pieces with the separator gives back the input |
| Strings.SplitAppend | src/pages/AuthorsPage.tsx:100 | a separator-free prefix followed by the separator becomes the first piece, and the rest splits on its own |
| Strings.Join | src/utils/contentUtils.tsx:21 | `join(sep)`; `Strings.Split` states that it inverts the split, and `Strings.JoinExcludes` and `ContentUtils.JoinNonEmpty` state what it holds |
| Strings.Concat | src/utils/contentUtils.tsx:25 | `join('')`; `ContentUtils.SplitTags` states that it rebuilds the input from the split, and `ContentUtils.ProcessedParts` that it builds the output |
| Strings.JoinExcludes | src/utils/contentUtils.tsx:21 | a character in no piece and not in the separator is not in the joined string |
| Strings.PluralSuffix | src/pages/MagazinesPage.tsx:125 | the suffix is "s" iff the count is not 1, and empty iff it is 1 |
| Strings.NatToString | src/pages/MagazinesPage.tsx:125 | a count prints as at least one character, all of them decimal digits; `Strings.NatToStringValue` states which number they spell |
| Strings.NatToStringValue | src/pages/MagazinesPage.tsx:125 | the printed digits spell the count back, with no leading zero |
| Seqs.Filter | src/pages/MagazinesPage.tsx:53 | the result is an order-preserving subsequence; an element is in it iff it is in the input and passes the test; each kept value occurs as often as in the input |
| Seqs.FilterAll | src/pages/Index.tsx:40-44 | when every element passes, the filter returns the input |
| Seqs.FilterAgree | src/pages/MagazinesPage.tsx:53-61 | two tests that agree on every element filter alike |
| Seqs.FirstIndex | src/pages/MagazinesPage.tsx:51 | the index holds the value and no earlier position does |
| Seqs.Dedup | src/pages/AuthorsPage.tsx:41 | `new Set(...)` keeps exactly the input's values, each once |
| Seqs.DedupOrder | src/pages/MagazinesPage.tsx:51 | the distinct values come in the order of their first appearance in the input |
| Editor.Insert | src/components/WysiwygEditor.tsx:62-76 | the text before the selection is kept, then comes the inserted text, then the text after the selection; the caret collapses right after the inserted text |
| Editor.Wrap | src/components/WysiwygEditor.tsx:78-95 | `before`, the selected text and `after` replace the selection, the rest is kept, and the new selection covers exactly the originally selected text |
| Editor.WrapIsInsert | src/components/WysiwygEditor.tsx:78-89 | the value after wrapping is the value after inserting `before + selection + after` in place of the selection |
| Editor.InsertNothing | src/components/WysiwygEditor.tsx:62-70 | inserting the empty string deletes the selection, and at a caret changes nothing |
| Editor.HeadingHtml | src/components/WysiwygEditor.tsx:101 | the heading template; `Editor.ToolbarHeadings` states the three strings the toolbar inserts |
| Editor.ImageClass | src/components/WysiwygEditor.tsx:107-109 | the image class by alignment, center in the else arm; `Editor.AlignmentClassesDistinct` and `ContentImage.AgreesWithEditor` state its properties |
| Editor.CaptionClass | src/components/WysiwygEditor.tsx:111-113 | the caption class by alignment; `Editor.AlignmentClassesDistinct` and `ContentImage.AgreesWithEditor` state its properties |
| Editor.ImageBlock | src/components/WysiwygEditor.tsx:115-124 | the image block built step by step in the source; `Editor.ImageBlockShape` states its shape and `Editor.WysiwygEditor.HandleImageInsert` proves the step-by-step build equal to it |
| Editor.ImageTextBlock | src/components/WysiwygEditor.tsx:138-143 | the image-and-text template, written out as the source has it; `Editor.WysiwygEditor.HandleImageTextInsert` inserts exactly this |
| Editor.TextImageBlock | src/components/WysiwygEditor.tsx:155-160 | the text-and-image template, unclosed class quote included; `Editor.WysiwygEditor.HandleTextImageInsert` inserts exactly this |
| Editor.CodeBlockHtml | src/components/WysiwygEditor.tsx:172-176 | the code block template; `Editor.DefaultCodeLanguage` states its opening for the initial language |
| Editor.InlineCodeHtml | src/components/WysiwygEditor.tsx:187 | the inline code template; `Editor.WysiwygEditor.HandleCodeInsert` inserts exactly this |
| Editor.LinkHtml | src/components/WysiwygEditor.tsx:196 | the link template; `Editor.WysiwygEditor.HandleLinkInsert` inserts exactly this |
| Editor.ToolbarHeadings | src/components/WysiwygEditor.tsx:235-255 | the toolbar's levels 1, 2 and 3 insert exactly `<h1>Heading 1</h1>\n`, `<h2>Heading 2</h2>\n` and `<h3>Heading 3</h3>\n` |
| Editor.AlignmentClassesDistinct | src/components/WysiwygEditor.tsx:107-113 | different alignments get different image classes and different caption classes |
| Editor.ImageBlockShape | src/components/WysiwygEditor.tsx:107-127 | the image block starts with the `img` element and ends with `\n</figure>\n\n`; between them is the caption element iff the caption is non-empty, and nothing otherwise |
| Editor.DefaultCodeLanguage | src/components/WysiwygEditor.tsx:53 | with the untouched language select, a code block opens with `<pre><code class="language-javascript">` |
| Editor.WrapAll | src/components/WysiwygEditor.tsx:78-95 | wrapping a fully selected text surrounds it and keeps exactly it selected |
| Editor.BoldScenario | src/components/WysiwygEditor.tsx:97 | bolding a fully selected "Hello" gives `<strong>Hello</strong>`, with "Hello" still selected |
| Editor.WysiwygEditor.constructor | src/components/WysiwygEditor.tsx:29-60 | every dialog starts closed with empty fields; the alignment starts at center and the language at JavaScript |
| Editor.WysiwygEditor.Edit | src/components/WysiwygEditor.tsx:586-590 | typing replaces the value and the selection and touches no dialog |
| Editor.WysiwygEditor.SetDialogOpen | src/components/WysiwygEditor.tsx:264-527 | opening or closing a dialog changes only that dialog's open flag; its fields are kept |
| Editor.WysiwygEditor.EditImageFields | src/components/WysiwygEditor.tsx:416-457 | the image dialog's inputs change only the image dialog's fields |
| Editor.WysiwygEditor.EditMediaTextFields | src/components/WysiwygEditor.tsx:488-571 | the image-and-text or text-and-image inputs change only that dialog's fields |
| Editor.WysiwygEditor.EditCodeBlockFields | src/components/WysiwygEditor.tsx:363-382 | the code block inputs change only the code block dialog's fields |
| Editor.WysiwygEditor.EditCodeFields | src/components/WysiwygEditor.tsx:330-331 | the inline code input changes only the inline code dialog's field |
| Editor.WysiwygEditor.EditLinkFields | src/components/WysiwygEditor.tsx:284-296 | the link inputs change only the link dialog's fields |
| Editor.WysiwygEditor.InsertAtCursor | src/components/WysiwygEditor.tsx:62-76 | with a mounted textarea, the new value and selection are those of `Insert`; unmounted, nothing changes; dialogs are untouched |
| Editor.WysiwygEditor.WrapSelection | src/components/WysiwygEditor.tsx:78-95 | with a mounted textarea, the new value and selection are those of `Wrap`; unmounted, nothing changes; dialogs are untouched |
| Editor.WysiwygEditor.HandleBold | src/components/WysiwygEditor.tsx:97 | wraps the selection in `<strong>` and `</strong>` |
| Editor.WysiwygEditor.HandleItalic | src/components/WysiwygEditor.tsx:98 | wraps the selection in `<em>` and `</em>` |
| Editor.WysiwygEditor.HandleHeading | src/components/WysiwygEditor.tsx:100-102 | inserts the heading template for the level |
| Editor.WysiwygEditor.HandleImageInsert | src/components/WysiwygEditor.tsx:104-133 | without a URL nothing changes; otherwise the image block for the dialog's fields is inserted, and only the image dialog is reset (closed, alignment center) |
| Editor.WysiwygEditor.HandleImageTextInsert | src/components/WysiwygEditor.tsx:135-150 | without a URL or text nothing changes; otherwise the image-and-text block is inserted and only its dialog is reset |
| Editor.WysiwygEditor.HandleTextImageInsert | src/components/WysiwygEditor.tsx:152-167 | without a URL or text nothing changes; otherwise the text-and-image block, with its unclosed class quote, is inserted and only its dialog is reset |
| Editor.WysiwygEditor.HandleCodeBlockInsert | src/components/WysiwygEditor.tsx:169-182 | without code nothing changes; otherwise the code block is inserted and only its dialog is reset (language back to JavaScript) |
| Editor.WysiwygEditor.HandleCodeInsert | src/components/WysiwygEditor.tsx:184-191 | without code nothing changes; otherwise the inline code is inserted and only its dialog is reset |
| Editor.WysiwygEditor.HandleLinkInsert | src/components/WysiwygEditor.tsx:193-201 | without a URL or text nothing changes; otherwise the link is inserted and only its dialog is reset |
| ContentUtils.FirstTag | src/utils/contentUtils.tsx:6 | the leftmost match of `<[^>]*>` has no `<` before it and is a whole tag; with no match the text holds no `<` followed later by a `>` |
| ContentUtils.SplitTags | src/utils/contentUtils.tsx:6 | the split alternates text parts that hold no tag with tag parts, starts and ends with text, and concatenates back to the input |
| ContentUtils.SplitTagsCuts | src/utils/contentUtils.tsx:6 | every text part followed by a tag holds no `<`, so each tag starts at the first `<` after the previous cut, as the leftmost matches of the regular expression do; with `ContentUtils.SplitTags` this fixes the split |
| ContentUtils.AlternatingParity | src/utils/contentUtils.tsx:6-8 | the split has odd length; the odd positions hold tags and the even positions hold text |
| ContentUtils.ProcessPart | src/utils/contentUtils.tsx:9-24 | what one part becomes; `ContentUtils.TagsVerbatim`, `ContentUtils.ProcessText`, `ContentUtils.TextLosesNewlines` and `ContentUtils.BlankTextVanishes` state its properties |
| ContentUtils.ProcessPlainTextNewlines | src/utils/contentUtils.tsx:4-26 | every part of the split processed and concatenated in order; `ContentUtils.ProcessedParts` states the result |
| ContentUtils.ProcessHtmlContent | src/utils/contentUtils.tsx:1-29 | the exported function; `ContentUtils.ProcessedParts` and `ContentUtils.NoNewlineUnchanged` state its properties |
| ContentUtils.TrimEach | src/utils/contentUtils.tsx:19 | every line is trimmed, one for one |
| ContentUtils.LooksLikeTag | src/utils/contentUtils.tsx:10 | the `startsWith('<') && endsWith('>')` test; `ContentUtils.TagTestIsExact` states that it holds exactly for the tag parts of the split |
| ContentUtils.TagTestIsExact | src/utils/contentUtils.tsx:10-12 | the starts-with-`<` and ends-with-`>` test holds exactly for the odd positions, the tag parts |
| ContentUtils.TagsVerbatim | src/utils/contentUtils.tsx:10-12 | every tag part is output unchanged |
| ContentUtils.NoNewlineUnchanged | src/utils/contentUtils.tsx:16-24 | an input without a line break is returned unchanged |
| ContentUtils.ProcessText | src/utils/contentUtils.tsx:16-24 | a text part holding a line break becomes its trimmed non-blank lines joined by `<br />`; one without stays as it is |
| ContentUtils.KeptLines | src/utils/contentUtils.tsx:18-21 | every kept line is non-empty and holds no line break |
| ContentUtils.TextLosesNewlines | src/utils/contentUtils.tsx:16-22 | a processed text part never holds a line break |
| ContentUtils.ProcessedParts | src/utils/contentUtils.tsx:8-25 | the output is the concatenation, in input order, of one result per part; tags are kept at their positions and no text part keeps a line break |
| ContentUtils.BlankLinesVanish | src/utils/contentUtils.tsx:18-20 | a part made only of whitespace keeps no line |
| ContentUtils.SomeLineKept | src/utils/contentUtils.tsx:18-20 | a part with a character other than whitespace keeps at least one line |
| ContentUtils.BlankTextVanishes | src/utils/contentUtils.tsx:17-22 | a text part with a line break becomes empty iff it is all whitespace |
| Magazines.MatchesSearch | src/pages/MagazinesPage.tsx:54-56 | the lower-cased query occurs in the lower-cased title, author or about; `Magazines.FilteredMagazines` and `Magazines.AllMagazines` keep exactly the magazines it accepts |
| Magazines.MatchesCategory | src/pages/MagazinesPage.tsx:58 | "ALL" or the magazine's own category; `Magazines.AllCategoryIsSearchOnly` states that "ALL" lets everything through |
| Magazines.FilteredMagazines | src/pages/MagazinesPage.tsx:53-61 | an order-preserving subsequence; a magazine is kept iff the search matches its title, author or about, and the category test passes; each kept one occurs as often as in the input |
| Magazines.Categories | src/pages/MagazinesPage.tsx:51 | "ALL" first, then each category of the magazines exactly once, and no other |
| Magazines.CategoriesInFirstAppearanceOrder | src/pages/MagazinesPage.tsx:51 | the categories after "ALL" come in order of their first appearance |
| Magazines.EmptyQueryFiltersByCategoryOnly | src/pages/MagazinesPage.tsx:53-61 | with an empty query the list is exactly the magazines of the selected category |
| Magazines.AllCategoryIsSearchOnly | src/pages/MagazinesPage.tsx:58 | with "ALL" selected the magazines page lists what the home page's search lists |
| Magazines.FeaturedMagazines | src/pages/Index.tsx:39 | an order-preserving subsequence holding exactly the featured magazines, whatever the query; each kept one occurs as often as in the input |
| Magazines.AllMagazines | src/pages/Index.tsx:40-44 | an order-preserving subsequence holding exactly the magazines the search matches, with no category test; each kept one occurs as often as in the input |
| Magazines.EmptyQueryListsAll | src/pages/Index.tsx:40-44 | an empty query lists every magazine |
| Magazines.MagazineCountText | src/pages/MagazinesPage.tsx:125 | "1 magazine found" for one, the plural form for every other count |
| Authors.ToAuthor | src/pages/AuthorsPage.tsx:36-44 | the fields are copied; the categories are the record's, each once, in the order of their first appearance in the record; an empty bio becomes the stock sentence, a non-empty one is kept |
| Authors.AuthorsInfo | src/pages/AuthorsPage.tsx:35-45 | the dictionary the `reduce` builds; `Authors.AuthorsInfoKeys` and `Authors.LaterRecordWins` state its keys and entries |
| Authors.AuthorsInfoKeys | src/pages/AuthorsPage.tsx:35-45 | the dictionary's keys are exactly the response's usernames |
| Authors.LaterRecordWins | src/pages/AuthorsPage.tsx:35-45 | a username's entry is built from its last record in the response |
| Authors.BuildAuthorsInfo | src/pages/AuthorsPage.tsx:35-45 | the in-place fold yields the dictionary of `AuthorsInfo`, and its keys are the distinct usernames in first-assignment order |
| Authors.AuthorValues | src/pages/AuthorsPage.tsx:94 | `Object.values` of the dictionary in the key order that `Authors.BuildAuthorsInfo` proves the fold produces |
| Authors.NameMatches | src/pages/AuthorsPage.tsx:95 | the lower-cased query occurs in the lower-cased name; `Authors.SearchAuthors` keeps exactly the authors it accepts |
| Authors.SearchAuthors | src/pages/AuthorsPage.tsx:94-96 | an order-preserving subsequence holding exactly the authors whose lower-cased name includes the lower-cased query; each kept one occurs as often as in the input |
| Authors.EmptyQueryListsAllAuthors | src/pages/AuthorsPage.tsx:94-96 | an empty query lists every author |
| Authors.Initials | src/pages/AuthorsPage.tsx:99-101 | `getAuthorInitials`; `Authors.InitialsOfWord`, `Authors.InitialsAppend` and `Authors.DoubleSpaceAddsNothing` determine it for every name |
| Authors.FirstLetter | src/pages/AuthorsPage.tsx:100 | `word[0]`, with `undefined` joining as nothing for an empty word; `Authors.InitialsOfWord` and `Authors.DoubleSpaceAddsNothing` state both cases |
| Authors.FirstLetters | src/pages/AuthorsPage.tsx:100 | `map(word => word[0]).join('')`; `Authors.InitialsAppend` states that it goes word by word |
| Authors.InitialsOfWord | src/pages/AuthorsPage.tsx:99-101 | a single word gives its upper-cased first letter, and an empty word gives nothing |
| Authors.InitialsAppend | src/pages/AuthorsPage.tsx:99-101 | the initials of words joined by a space are the initials of each, in order |
| Authors.DoubleSpaceAddsNothing | src/pages/AuthorsPage.tsx:99-101 | an extra space makes an empty word, which adds no letter |
| Authors.VisibleBadges | src/pages/AuthorsPage.tsx:173 | at most the first three categories, and all of them when there are three or fewer |
| Authors.OverflowBadge | src/pages/AuthorsPage.tsx:178-182 | a "+n" badge is present iff there are more than three categories |
| Authors.BadgesCoverAll | src/pages/AuthorsPage.tsx:173-182 | the visible badges plus the number the "+n" badge shows account for every category |
| Authors.AuthorCountText | src/pages/AuthorsPage.tsx:140 | "1 author found" for one, the plural form for every other count |
| Authors.ArticleCountText | src/pages/AuthorsPage.tsx:168 | "1 article" for one, the plural form for every other count |
| ContentImage.AlignmentClasses | src/components/ContentImage.tsx:12-22 | the left class iff "left", the right class iff "right", and the center class for "center" and any other value |
| ContentImage.CaptionClasses | src/components/ContentImage.tsx:24-34 | `text-left` iff "left", `text-right` iff "right", and `text-center` otherwise |
| ContentImage.ShowsCaption | src/components/ContentImage.tsx:46 | `caption && ...`: a present, non-empty caption; `ContentImage.CaptionAgreesWithEditor` states that the editor's image block agrees with it |
| ContentImage.CaptionAgreesWithEditor | src/components/ContentImage.tsx:46-53 | the component renders a caption (present and non-empty) exactly when the editor's image block holds a caption element for the same text |
| ContentImage.SameArm | src/components/ContentImage.tsx:12-34 | the image class falls to center exactly when the caption class does |
| ContentImage.AgreesWithEditor | src/components/ContentImage.tsx:15-20 | the left and right image classes match the editor's, the center class does not, and the caption classes all match |
| Csrf.GetCsrfToken | src/utils/getCsrfToken.tsx:1-4 | the scanner's value or `''`; `Csrf.GetCsrfTokenSpec`, `Csrf.TokenHasNoSemicolon` and `Csrf.LongerNameNeverMatches` state its properties |
| Csrf.EntryAt | src/utils/getCsrfToken.tsx:2 | the `\s*csrftoken=([^;]+)` part of the pattern, read from one start position; `Csrf.EntryAtIff` states it against the declarative entry |
| Csrf.MatchAt | src/utils/getCsrfToken.tsx:2 | the `(^\|;)` alternation at one position, `^` tried first; `Csrf.MatchAtIff` states it |
| Csrf.Scan | src/utils/getCsrfToken.tsx:2 | the search for the leftmost position where the pattern matches; `Csrf.ScanFirst` and `Csrf.ScanLeftmost` state it |
| Csrf.EntryAtIff | src/utils/getCsrfToken.tsx:2 | after a start position the scanner reads value `v` iff the text there is optional whitespace, `csrftoken=`, then `v`, which is non-empty and runs to the next `;` or the end |
| Csrf.MatchAtIff | src/utils/getCsrfToken.tsx:2 | a match starts at a position iff an entry begins there at the string start or right after a `;` |
| Csrf.ScanFirst | src/utils/getCsrfToken.tsx:2 | the scan stops at the first position where a match starts, and finds nothing iff no position has one |
| Csrf.ScanLeftmost | src/utils/getCsrfToken.tsx:2 | the scan returns the leftmost entry, and none when no entry exists |
| Csrf.GetCsrfTokenSpec | src/utils/getCsrfToken.tsx:1-4 | a non-empty result is the value of the leftmost entry; the result is `''` iff no entry exists |
| Csrf.TokenHasNoSemicolon | src/utils/getCsrfToken.tsx:2 | the returned value never holds a `;` |
| Csrf.LongerNameNeverMatches | src/utils/getCsrfToken.tsx:2 | a cookie whose one entry has a name that only ends in `csrftoken` (a non-empty prefix starting with a non-space and holding no `=` or `;`, as in `xcsrftoken=`) yields `''`; a later genuine entry would still be found |
| MagazineCard.ReplaceFirst | src/components/MagazineCard.tsx:59 | the length is kept; without the character nothing changes; otherwise only its first occurrence is replaced |
| MagazineCard.AuthorSlug | src/components/MagazineCard.tsx:59 | `toLowerCase().replace(' ', '-')`; `MagazineCard.AuthorSlugShape` and `MagazineCard.AuthorSlugRoundTrip` state its properties |
| MagazineCard.AuthorLink | src/components/MagazineCard.tsx:59 | the author link; `MagazineCard.AuthorLinkRoundTrip` states that the slug is read back from it |
| MagazineCard.MagazineLink | src/components/MagazineCard.tsx:48 | the magazine link; `MagazineCard.MagazineLinkRoundTrip` states that the slug is read back from it |
| MagazineCard.ReplaceFirstUndo | src/components/MagazineCard.tsx:59 | replacing, then replacing back with a character the input lacks, restores the input |
| MagazineCard.AuthorSlugShape | src/components/MagazineCard.tsx:59 | the slug is as long as the name; a name without a space is just lower-cased; otherwise the first space becomes `-`, every other character is lower-cased, and later spaces stay |
| MagazineCard.AuthorSlugRoundTrip | src/components/MagazineCard.tsx:59 | for a name without `-`, turning the first `-` back into a space recovers the lower-cased name |
| MagazineCard.SegmentAfter | src/App.tsx:25-28 | a segment read from a path is non-empty and holds no `/` |
| MagazineCard.MagazineLinkRoundTrip | src/components/MagazineCard.tsx:48 | the link is the base, `/magazine/`, the slug, then `/`, and the slug is read back from it intact |
| MagazineCard.AuthorLinkRoundTrip | src/components/MagazineCard.tsx:59 | the link is the base, `/author/`, then the slug, and the slug is read back from it intact |

## Left out

- Loading data: every `fetch` and `useEffect` loader, their loading and error states, and the 30-second polling. These are network I/O and timers.
- The deferred `setTimeout` that focuses the textarea and sets its selection. The model applies the resulting selection at once.
- `textareaRef.current` is reduced to the `mounted` flag of `Editor.WysiwygEditor`.
- JSX rendering, dialogs as widgets, theming and styling. The `cn()` class merging of `ContentImage.tsx` is not modelled; only the alignment and caption classes it receives are.
- Routing in `src/App.tsx`. `MagazineCard.SegmentAfter` reads a link back; it is not the router. For example, the router would send a magazine slug `create` to the create page.
- Unicode case mapping, Unicode whitespace and the JavaScript regular expression engine. Case and whitespace are ASCII. The two regular expressions are written out as scanners.
- `document.cookie`: the cookie string is a parameter of `Csrf.GetCsrfToken`.
- Authors.AuthorValues: it lists entries in first-assignment order of their keys. `Object.values` puts integer-like keys first, which is not modelled.
- Editor.Insert, Editor.Wrap and the selection fields `selStart` and `selEnd` of `Editor.WysiwygEditor`: offsets and lengths count `char`s, which are Unicode scalar values. The textarea's `selectionStart`, `selectionEnd` and `text.length` count UTF-16 code units. The two differ for text outside the Basic Multilingual Plane and for offsets inside a surrogate pair.
- Authors.FirstLetter: `word[0]` is one UTF-16 code unit in JavaScript; here it is one `char`.
- Editor.WysiwygEditor.HandleHeading: the level is a natural number printed in decimal. The toolbar only passes 1, 2 and 3.
- Escaping and HTML well-formedness: the source escapes nothing, and neither does the model.
- `src/pages/DonatePage.tsx`, `src/pages/AuthPage.tsx`, `src/components/Header.tsx`, `src/components/footer.tsx`, and the three.js scenes `src/components/SpaceScene.tsx` and `src/components/Logo3D.tsx` are not part of this model. They hold static data, an inert form and floating-point animation.
- The slug expression duplicated in `src/pages/MagazinePage.tsx` is the one modelled by `MagazineCard.AuthorSlug`.
