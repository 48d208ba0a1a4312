/** The records of func.py (lines 37-72): the frozen structs that the store
    returns, and the row of the `paragraphs` table. Timestamps other than the
    soft-delete marker are not modelled; `deletedAt` is the clock reading
    passed to the delete, or None while the row is live. */
module Records {
  import opened Wrappers
  import opened TextOps
  import MarkdownText

  datatype Collection = Collection(id: int, name: string, deletedAt: Option<nat>)

  datatype Tag = Tag(id: int, name: string, description: string, deletedAt: Option<nat>) {
    /** `Tag.md_link`: the link whose text is the description verbatim and
        whose anchor is the normalised description. */
    function MdLink(): (r: string)
      ensures ParseLink(r) == Some(Link(description, MarkdownText.SafeText(description)))
    {
      MarkdownText.Hyperlink(description)
    }
  }

  /** A `paragraphs` row: the owning collection by id only. */
  datatype ParagraphRow = ParagraphRow(id: int, collectionId: int, title: string, content: string,
                                       deletedAt: Option<nat>)

  /** A hydrated `Paragraph`: its collection row (None when no collection has
      that id) and its tags. `tags` is a frozenset in the source; here it is
      a sequence without repetitions, in whatever order it is iterated. */
  datatype Paragraph = Paragraph(id: int, title: string, content: string,
                                 collection: Option<Collection>, tags: seq<Tag>)
  {
    /** `Paragraph.md_link`: the link whose text is the title verbatim and
        whose anchor is the normalised title. */
    function MdLink(): (r: string)
      ensures ParseLink(r) == Some(Link(title, MarkdownText.SafeText(title)))
    {
      MarkdownText.Hyperlink(title)
    }
  }
}
