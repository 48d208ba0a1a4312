/** Concrete runs of the store as a caller would make them: the worked
    example of a tag, a paragraph and the rendered document, and the orphaned
    association row that `update_paragraph` can leave behind. */
module Scenarios {
  import opened Wrappers
  import opened Seqs
  import opened Records
  import MarkdownText
  import Renderer
  import opened Repository

  /** Collection "Physics", added to a fresh store. */
  method ExampleCollection() returns (s: Store)
    ensures fresh(s) && s.Valid()
    ensures s.collections == [Collection(1, "Physics", None)]
    ensures s.tags == [] && s.nextTagId == 1
    ensures s.paragraphs == [] && s.nextParagraphId == 1 && s.paragraphTags == {}
  {
    s := new Store();
    var c := s.AddCollection("Physics");
  }

  /** Then tag "Thermo Dynamics", stored under the name `thermo-dynamics`. */
  method ExampleTagged() returns (s: Store)
    ensures fresh(s) && s.Valid()
    ensures s.collections == [Collection(1, "Physics", None)]
    ensures s.tags == [Tag(1, "thermo-dynamics", "Thermo Dynamics", None)]
    ensures s.paragraphs == [] && s.nextParagraphId == 1 && s.paragraphTags == {}
  {
    s := ExampleCollection();
    MarkdownText.ExampleTagAnchor();
    var t := s.AddTag("Thermo Dynamics", None);
  }

  /** Then the paragraph "Entropy" carrying that tag. */
  method ExampleStore() returns (s: Store, tag: Tag)
    ensures fresh(s) && s.Valid()
    ensures tag == Tag(1, "thermo-dynamics", "Thermo Dynamics", None)
    ensures s.collections == [Collection(1, "Physics", None)]
    ensures s.tags == [tag]
    ensures s.paragraphs == [ParagraphRow(1, 1, "Entropy", "Entropy always increases.", None)]
    ensures s.paragraphTags == {(1, 1)}
  {
    s := ExampleTagged();
    tag := Tag(1, "thermo-dynamics", "Thermo Dynamics", None);
    assert PairsFor(1, [1]) == {(1, 1)};
    var p := s.AddParagraph(1, "Entropy", "Entropy always increases.", [1]);
  }

  /** The paragraph that store hydrates to. */
  const EntropyParagraph := Paragraph(1, "Entropy", "Entropy always increases.",
                                      Some(Collection(1, "Physics", None)), [ThermoTag])
  const ThermoTag := Tag(1, "thermo-dynamics", "Thermo Dynamics", None)

  /** The worked example's paragraph link: `[Entropy](#entropy)`. */
  lemma ExampleParagraphLink()
    ensures EntropyParagraph.MdLink() == "[Entropy](#entropy)"
  {
    calc {
      EntropyParagraph.MdLink();
    == { MarkdownText.ExampleParagraphAnchor();
         MarkdownText.HyperlinkSpelled("Entropy", "entropy"); }
      "[" + "Entropy" + "](#" + "entropy" + ")";
    ==
      "[Entropy](#entropy)";
    }
  }

  /** The worked example's tag link: `[Thermo Dynamics](#thermo-dynamics)`. */
  lemma ExampleTagLink()
    ensures ThermoTag.MdLink() == "[Thermo Dynamics](#thermo-dynamics)"
  {
    calc {
      ThermoTag.MdLink();
    == { MarkdownText.ExampleTagAnchor();
         MarkdownText.HyperlinkSpelled("Thermo Dynamics", "thermo-dynamics"); }
      "[" + "Thermo Dynamics" + "](#" + "thermo-dynamics" + ")";
    ==
      "[Thermo Dynamics](#thermo-dynamics)";
    }
  }

  /** A single paragraph carrying a single tag renders, in whichever order the
      one-tag set is iterated, to one index heading (the tag's description)
      listing the paragraph's link, and one excerpt listing the tag's link. */
  lemma {:induction false} RenderOnePairing(p: Paragraph, tag: Tag, order: seq<Tag>)
    requires p.tags == [tag]
    requires Enumerates(order, {tag})
    ensures Renderer.Render([p], order) == Renderer.Document(
      [Renderer.IndexEntry(tag.description, [p.MdLink()])],
      [Renderer.Excerpt(p.title, p.content, [tag.MdLink()])])
  {
    Singleton(order, tag);
    var doc := Renderer.Render([p], order);
    assert Renderer.Carrying([p], tag) == [p];
    assert Renderer.ParagraphLinks([p]) == [p.MdLink()];
    assert doc.index == [Renderer.IndexEntry(tag.description, [p.MdLink()])] by {
      assert doc.index[0] == Renderer.IndexEntry(tag.description, Renderer.ParagraphLinks([p]));
    }
    assert doc.excerpts == [Renderer.Excerpt(p.title, p.content, [tag.MdLink()])] by {
      assert Renderer.TagLinks([tag]) == [tag.MdLink()];
      assert doc.excerpts[0] == Renderer.ExcerptOf(p);
    }
  }

  /** The records `get_paragraphs(collection_id=1)` builds on the example store. */
  lemma ExampleHydration(s: Store, ps: seq<Paragraph>)
    requires s.collections == [Collection(1, "Physics", None)]
    requires s.tags == [ThermoTag]
    requires s.paragraphs == [ParagraphRow(1, 1, "Entropy", "Entropy always increases.", None)]
    requires s.paragraphTags == {(1, 1)}
    requires s.Hydrates(ps, Select(s.paragraphs, None, Some(1)))
    ensures ps == [EntropyParagraph]
  {
    var row := s.paragraphs[0];
    assert Select([row], None, Some(1)) == [row];
    assert s.HydratedFrom(ps[0], row);
    Singleton(ps[0].tags, ThermoTag);
  }

  /** Rendering that store's collection 1: the index has the heading "Thermo
      Dynamics" listing the paragraph's link, and the one excerpt has the
      title, the content and the tag's link, spelled out as
      `[Entropy](#entropy)` and `[Thermo Dynamics](#thermo-dynamics)`. */
  method ExampleDocument() returns (doc: Renderer.Document)
    ensures doc == Renderer.Document(
      [Renderer.IndexEntry("Thermo Dynamics", [EntropyParagraph.MdLink()])],
      [Renderer.Excerpt("Entropy", "Entropy always increases.", [ThermoTag.MdLink()])])
    ensures doc == Renderer.Document(
      [Renderer.IndexEntry("Thermo Dynamics", ["[Entropy](#entropy)"])],
      [Renderer.Excerpt("Entropy", "Entropy always increases.", ["[Thermo Dynamics](#thermo-dynamics)"])])
  {
    var s, tag := ExampleStore();
    var ps, order;
    doc, ps, order := s.GenerateMarkdown(1);
    ExampleHydration(s, ps);
    assert Renderer.TagUnion(ps) == {ThermoTag};
    RenderOnePairing(EntropyParagraph, ThermoTag, order);
    ExampleParagraphLink();
    ExampleTagLink();
  }

  /** The code as written, on a fresh store: `update_paragraph(1, "Entropy",
      tag_ids=[7])` before any paragraph exists changes no row but leaves the
      association pair (1, 7) behind. */
  method OrphanPairStore() returns (s: Store)
    ensures fresh(s) && s.Valid()
    ensures s.paragraphs == [] && s.nextParagraphId == 1 && s.paragraphTags == {(1, 7)}
    ensures !s.PairsOwned()
  {
    s := new Store();
    var u := s.UpdateParagraph(1, Some("Entropy"), None, [7]);
    assert (set p: (int, int) | p in {} && p.0 != 1) == {};
    assert PairsFor(1, [7]) == {(1, 7)};
    assert (1, 7) in s.paragraphTags;
  }

  /** On that store the next `add_paragraph`, which is handed id 1, fails when
      it asks for tag 7. */
  method OrphanPairBlocksInsert() returns (res: Result<int, DbError>)
    ensures res == Failure(DuplicatePair)
  {
    var s := OrphanPairStore();
    res := s.AddParagraph(1, "Entropy", "Entropy always increases.", [7]);
    assert 7 in [7];
  }

  /** On that store, an `add_paragraph` that asks for no tags succeeds, and
      the association table then pairs the new paragraph 1 with tag id 7,
      which it never asked for. */
  method OrphanPairAdopted() returns (res: Result<int, DbError>, pairs: set<(int, int)>)
    ensures res == Success(1) && pairs == {(1, 7)}
  {
    var s := OrphanPairStore();
    var none: seq<int> := [];
    assert PairsFor(1, none) == {};
    res := s.AddParagraph(1, "Entropy", "Entropy always increases.", none);
    pairs := s.paragraphTags;
  }

  /** The inherited tag made visible, first step: on the example store with
      collection "Physics" and tag "Thermo Dynamics" (id 1),
      `update_paragraph(1, "Entropy", tag_ids=[1])` before any paragraph
      exists changes no row but stores the pair (1, 1). */
  method OrphanTagStore() returns (s: Store)
    ensures fresh(s) && s.Valid()
    ensures s.collections == [Collection(1, "Physics", None)] && s.tags == [ThermoTag]
    ensures s.paragraphs == [] && s.nextParagraphId == 1 && s.paragraphTags == {(1, 1)}
  {
    s := ExampleTagged();
    var u := s.UpdateParagraph(1, Some("Entropy"), None, [1]);
    assert (set p: (int, int) | p in {} && p.0 != 1) == {};
    assert PairsFor(1, [1]) == {(1, 1)};
  }

  /** Then `add_paragraph(1, "Entropy", ..., tag_ids=[])` succeeds with id 1,
      and the new row finds the pair (1, 1) already there. */
  method OrphanTagAdded() returns (s: Store, res: Result<int, DbError>)
    ensures s.Valid() && res == Success(1)
    ensures s.collections == [Collection(1, "Physics", None)] && s.tags == [ThermoTag]
    ensures s.paragraphs == [ParagraphRow(1, 1, "Entropy", "Entropy always increases.", None)]
    ensures s.paragraphTags == {(1, 1)}
  {
    s := OrphanTagStore();
    var none: seq<int> := [];
    assert PairsFor(1, none) == {};
    res := s.AddParagraph(1, "Entropy", "Entropy always increases.", none);
  }

  /** And `get_paragraphs(paragraph_id=1)` reads that paragraph back carrying
      the tag "Thermo Dynamics" it never asked for: it is exactly the example
      paragraph that asked for it. */
  method OrphanTagInherited() returns (ps: seq<Paragraph>)
    ensures ps == [EntropyParagraph]
  {
    var s, res := OrphanTagAdded();
    ps := s.GetParagraphs(Some(1), None);
    var row := s.paragraphs[0];
    assert Matches(row, Some(1), None) && Matches(row, None, Some(1));
    assert Select([row], Some(1), None) == [row];
    assert Select([row], None, Some(1)) == [row];
    ExampleHydration(s, ps);
  }
}
