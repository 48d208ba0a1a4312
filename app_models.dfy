/** The copy of the text helpers and link properties in app/models.py. */
module AppModels {
  import opened Wrappers
  import opened TextOps
  import MarkdownText

  /** `get_markdown_safe_text` (app/models.py:7-13), written as in its source:
      the result holds only lower-case letters, digits, `-` and `_`. */
  function SafeText(s: string): (r: string)
    ensures IsAnchor(r)
  {
    var r := KeepLinkChars(ReplaceChar(Lower(Strip(s)), ' ', '-'));
    assert r == MarkdownText.SafeText(s);
    r
  }

  /** This copy and the one in func.py agree on every input. */
  lemma SafeTextAgrees(s: string)
    ensures SafeText(s) == MarkdownText.SafeText(s)
  {
  }

  /** A string of anchor characters is a fixed point of this copy. */
  lemma {:induction false} SafeTextFixesAnchors(s: string)
    requires IsAnchor(s)
    ensures SafeText(s) == s
  {
    SafeTextAgrees(s);
    MarkdownText.SafeTextFixesAnchors(s);
  }

  /** This copy is idempotent. */
  lemma {:induction false} SafeTextIdempotent(s: string)
    ensures SafeText(SafeText(s)) == SafeText(s)
  {
    SafeTextFixesAnchors(SafeText(s));
  }

  /** `get_markdown_hyperlink` (app/models.py:16-19): a link whose text is the
      input and whose anchor is this copy's normalisation of it. */
  function Hyperlink(text: string): (r: string)
    ensures ParseLink(r) == Some(Link(text, SafeText(text)))
  {
    ParseLinkOfBuilt(text, SafeText(text));
    "[" + text + "](#" + SafeText(text) + ")"
  }

  /** The two link builders agree on every input. */
  lemma HyperlinkAgrees(text: string)
    ensures Hyperlink(text) == MarkdownText.Hyperlink(text)
  {
    SafeTextAgrees(text);
  }

  datatype Collection = Collection(id: int, name: string)

  datatype Tag = Tag(id: int, name: string, description: string) {
    /** `Tag.md_link`: the link to the tag's description. */
    function MdLink(): (r: string)
      ensures ParseLink(r) == Some(Link(description, SafeText(description)))
    {
      Hyperlink(description)
    }
  }

  datatype Paragraph = Paragraph(id: int, title: string, content: string,
                                 collection: Option<Collection>, tags: seq<Tag>)
  {
    /** `Paragraph.md_link`: the link to the paragraph's title. */
    function MdLink(): (r: string)
      ensures ParseLink(r) == Some(Link(title, SafeText(title)))
    {
      Hyperlink(title)
    }
  }
}
