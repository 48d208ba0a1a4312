/** Properties of the store that span more than one call: what a read returns
    after a write. */
module StoreProperties {
  import opened Wrappers
  import opened Records
  import opened Repository

  /** `add_paragraph` followed by `get_paragraphs(paragraph_id=new_id)`, on a
      store whose association rows all belong to stored paragraphs: exactly
      one record comes back, with the given title, content, collection row
      (None when no collection has that id) and exactly the stored tags whose
      ids were asked for; unknown tag ids are dropped. */
  method AddThenGet(s: Store, collectionId: int, title: string, content: string, tagIds: seq<int>)
    returns (id: int, ps: seq<Paragraph>)
    requires s.Valid() && s.PairsOwned()
    modifies s
    ensures s.Valid() && s.PairsOwned()
    ensures |ps| == 1
    ensures ps[0].id == id && ps[0].title == title && ps[0].content == content
    ensures ps[0].collection == CollectionById(s.collections, collectionId)
    ensures forall t :: t in ps[0].tags <==> t in s.tags && t.id in tagIds
  {
    ghost var before := s.paragraphs;
    ghost var pairsBefore := s.paragraphTags;
    var res := s.AddParagraph(collectionId, title, content, tagIds);
    id := res.value;
    var row := ParagraphRow(id, collectionId, title, content, None);
    SelectNewRow(before, row);
    ps := s.GetParagraphs(Some(id), None);
    assert s.HydratedFrom(ps[0], row);
    forall pair | pair in pairsBefore ensures pair.0 < id {
      var r :| r in before && r.id == pair.0;
    }
  }

  /** `delete_paragraph(id)` followed by any `get_paragraphs`: no record with
      that id comes back. */
  method DeleteThenGet(s: Store, id: int, now: nat, paragraphId: Option<int>, collectionId: Option<int>)
    returns (ps: seq<Paragraph>)
    requires s.Valid()
    modifies s
    ensures forall p :: p in ps ==> p.id != id
  {
    ghost var before := s.paragraphs;
    s.DeleteParagraph(id, now);
    DeletedStaysHidden(before, id, now, paragraphId, collectionId);
    ps := s.GetParagraphs(paragraphId, collectionId);
    forall p | p in ps ensures p.id != id {
      var k :| 0 <= k < |ps| && ps[k] == p;
      assert s.HydratedFrom(ps[k], Select(s.paragraphs, paragraphId, collectionId)[k]);
    }
  }

  /** `update_paragraph(id, ..., tag_ids)` followed by any `get_paragraphs`:
      a record with that id carries exactly the stored tags whose ids were
      given, so a tag it had before and that is not among them is gone. */
  method UpdateThenGet(s: Store, id: int, title: Option<string>, content: Option<string>, tagIds: seq<int>,
                       paragraphId: Option<int>, collectionId: Option<int>)
    returns (res: Outcome<DbError>, ps: seq<Paragraph>)
    requires s.Valid()
    modifies s
    ensures res.Pass? <==> SuppliedText(title) || SuppliedText(content)
    ensures res.Pass? ==> forall p, t :: p in ps && p.id == id ==> (t in p.tags <==> t in s.tags && t.id in tagIds)
  {
    res := s.UpdateParagraph(id, title, content, tagIds);
    ps := s.GetParagraphs(paragraphId, collectionId);
    forall p | p in ps && p.id == id
      ensures forall t :: t in p.tags <==> t in s.tags && (id, t.id) in s.paragraphTags
    {
      var k :| 0 <= k < |ps| && ps[k] == p;
      assert s.HydratedFrom(ps[k], Select(s.paragraphs, paragraphId, collectionId)[k]);
    }
  }
}
