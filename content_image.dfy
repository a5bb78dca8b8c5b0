/**
 * The article image component: the classes its two `switch`es choose by
 * alignment and the rule that decides whether a caption is rendered.
 */
module ContentImage {
  import opened Wrappers
  import Editor

  const LeftImage: string := "float-left mr-6 mb-4 max-w-sm"
  const RightImage: string := "float-right ml-6 mb-4 max-w-sm"
  const CenterImage: string := "mx-auto block my-8 max-w-2xl"

  /** `getAlignmentClasses`: "left" and "right" have their own classes; "center" and anything else fall to the default arm. */
  function AlignmentClasses(alignment: string): (r: string)
    ensures r == LeftImage <==> alignment == "left"
    ensures r == RightImage <==> alignment == "right"
    ensures r == CenterImage <==> alignment != "left" && alignment != "right"
  {
    if alignment == "left" then LeftImage
    else if alignment == "right" then RightImage
    else CenterImage
  }

  /** `getCaptionClasses`, with the same three arms. */
  function CaptionClasses(alignment: string): (r: string)
    ensures r == "text-left" <==> alignment == "left"
    ensures r == "text-right" <==> alignment == "right"
    ensures r == "text-center" <==> alignment != "left" && alignment != "right"
  {
    if alignment == "left" then "text-left"
    else if alignment == "right" then "text-right"
    else "text-center"
  }

  /** `{caption && ...}`: a caption is rendered iff it is given and non-empty. */
  predicate ShowsCaption(caption: Option<string>) {
    caption.Some? && caption.value != ""
  }

  /**
   * The editor writes a caption element into its image block exactly when
   * this component, given the same caption, would render one.
   */
  lemma CaptionAgreesWithEditor(url: string, alt: string, a: Editor.Alignment, caption: string)
    ensures ShowsCaption(Some(caption)) <==>
      |Editor.ImageBlock(url, alt, a, caption)| > |Editor.FigureImage(url, alt, Editor.ImageClass(a))| + |Editor.FigureClose|
  {
    Editor.ImageBlockShape(url, alt, a, caption);
  }

  /** Both switches agree on which arm an alignment takes. */
  lemma SameArm(alignment: string)
    ensures (AlignmentClasses(alignment) == CenterImage) == (CaptionClasses(alignment) == "text-center")
  {
  }

  /**
   * The editor's image block uses the same left and right image classes for
   * the same alignment names, every caption class, but another centred class.
   */
  lemma AgreesWithEditor(a: Editor.Alignment)
    ensures a != Editor.Center ==> AlignmentClasses(a.Name()) == Editor.ImageClass(a)
    ensures a == Editor.Center ==> AlignmentClasses(a.Name()) != Editor.ImageClass(a)
    ensures CaptionClasses(a.Name()) == Editor.CaptionClass(a)
  {
  }
}
