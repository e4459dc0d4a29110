/** The product description: the text of the first paragraph of the
    description section, with the page's `og:description` meta tag as the
    fallback. */
module ProductDescription {
  import opened Wrappers
  import opened PyText
  import opened SoupText

  /** What the page offers for the description.  `paragraph` holds the text
      fragments of the first `<p>` in the first `div.product_subsection` of
      `div#product_description`, when all three exist.  `ogMeta` is the
      `og:description` meta tag when present, carrying its `content`
      attribute when it has one. */
  datatype DescriptionSources = DescriptionSources(
    paragraph: Option<seq<string>>,
    ogMeta: Option<Option<string>>)

  /** The paragraph's text, as `' '.join(p.get_text(separator=' ',
      strip=True).split())` computes it. */
  function ParagraphText(frags: seq<string>): (r: string)
    ensures r == Join(" ", FragmentWords(frags))
    ensures Collapsed(r)
    ensures r == "" <==> FragmentWords(frags) == []
  {
    SpacedTextWords(frags);
    Collapse(StrippedText(" ", frags))
  }

  /** The meta tag's content, when it has one. */
  function OgContent(src: DescriptionSources): Option<string> {
    if src.ogMeta.Some? then src.ogMeta.value else None
  }

  /** Whether the paragraph yields some text. */
  predicate HasParagraphText(src: DescriptionSources) {
    src.paragraph.Some? && FragmentWords(src.paragraph.value) != []
  }

  /** The description step as the extractor runs it.  The meta tag is first
      read unconditionally, and `.get('content').strip()` raises
      `AttributeError` on a tag without `content`; the result of that read
      is then discarded.  The paragraph wins when it gives text; otherwise
      the meta content, stripped, replaces it. */
  function DescriptionAsWritten(src: DescriptionSources): (r: Result<Option<string>, string>)
    ensures r.Err? <==> src.ogMeta == Some(None)
  {
    if src.ogMeta == Some(None) then Err("AttributeError")
    else
      var d := if src.paragraph.Some? then Some(ParagraphText(src.paragraph.value)) else None;
      if (d.None? || d.value == "") && src.ogMeta.Some? then
        Ok(Some(Strip(src.ogMeta.value.value)))
      else Ok(d)
  }

  /** The description step with a content-less meta tag treated as an
      absent one, which is what the fallback evidently intends. */
  function Description(src: DescriptionSources): (r: Option<string>)
    ensures HasParagraphText(src) ==> r == Some(Join(" ", FragmentWords(src.paragraph.value)))
    ensures !HasParagraphText(src) && OgContent(src).Some? ==> r == Some(Strip(OgContent(src).value))
    ensures !HasParagraphText(src) && OgContent(src).None? ==>
      r == (if src.paragraph.Some? then Some("") else None)
  {
    var d := if src.paragraph.Some? then Some(ParagraphText(src.paragraph.value)) else None;
    if (d.None? || d.value == "") && OgContent(src).Some? then Some(Strip(OgContent(src).value))
    else d
  }

  /** Whatever the source, the description never carries whitespace at its
      ends, and paragraph text is always collapsed. */
  lemma DescriptionShape(src: DescriptionSources)
    ensures Description(src).Some? ==> IsStripped(Description(src).value)
    ensures HasParagraphText(src) ==> Collapsed(Description(src).value)
    ensures Description(src).None? <==> src.paragraph.None? && OgContent(src).None?
  {
    var r := Description(src);
    if HasParagraphText(src) {
      CollapsedStripped(r.value);
    } else if OgContent(src).Some? {
      StripStripped(Strip(OgContent(src).value));
    }
  }

  /** A collapsed string has no whitespace at either end. */
  lemma CollapsedStripped(s: string)
    requires Collapsed(s)
    ensures IsStripped(s)
  {
    if |s| > 0 {
      assert !IsSpace(s[0]) && !IsSpace(s[|s| - 1]);
    }
  }

  /** The step as written agrees with the corrected one on every page whose
      meta tag, if any, has content. */
  lemma AsWrittenAgrees(src: DescriptionSources)
    requires src.ogMeta != Some(None)
    ensures DescriptionAsWritten(src) == Ok(Description(src))
  {
  }

  /** A page with a description paragraph and a content-less
      `og:description` tag loses its whole product record as written,
      although the paragraph alone decides the description. */
  lemma ContentlessMetaCrashes()
    ensures var src := DescriptionSources(Some(["Wow"]), Some(None));
      && DescriptionAsWritten(src).Err?
      && Description(src) == Some("Wow")
  {
    SplitWord("Wow");
    assert FragmentWords(["Wow"]) == Split("Wow") + FragmentWords([]);
  }
}
