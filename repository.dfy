/** The paragraph, tag and collection store of func.py (lines 85-326) as an
    in-memory object: the four tables, their auto-increment counters and the
    operations that read and change them. */
module Repository {
  import opened Wrappers
  import opened Seqs
  import opened TextOps
  import opened Records
  import MarkdownText
  import Renderer

  /** What the store's operations raise. */
  datatype DbError =
    | IntegrityError(message: string)  // sqlite3.IntegrityError: a UNIQUE or PRIMARY KEY constraint
    | ValueError(message: string)      // raised by the Python code itself
    | NotFound(message: string)        // raised only by UpdateParagraphChecked

  const DuplicateCollection := IntegrityError("UNIQUE constraint failed: collections.name")
  const DuplicatePair := IntegrityError("UNIQUE constraint failed: paragraph_tags.paragraph_id, paragraph_tags.tag_id")
  const EmptyTagName := ValueError("Tag name cannot be empty")
  const NothingToUpdate := ValueError("No values to update")
  const ParagraphNotFound := NotFound("paragraph not found")

  /** Python truthiness of an optional id: None and 0 both count as absent. */
  predicate SuppliedId(o: Option<int>) { o.Some? && o.value != 0 }

  /** Python truthiness of an optional string: None and "" both count as absent. */
  predicate SuppliedText(o: Option<string>) { o.Some? && o.value != "" }

  /** The association rows `(pid, t)` for each distinct `t` of `tagIds`. */
  function PairsFor(pid: int, tagIds: seq<int>): (r: set<(int, int)>)
    ensures forall p :: p in r <==> p.0 == pid && p.1 in tagIds
  {
    var r := set t | t in tagIds :: (pid, t);
    assert forall p: (int, int) :: p.0 == pid && p.1 in tagIds ==> p in r by {
      forall p: (int, int) | p.0 == pid && p.1 in tagIds ensures p in r {
        var t := p.1;
        assert p == (pid, t) && (pid, t) in r;
      }
    }
    r
  }

  predicate CollectionNamed(cs: seq<Collection>, name: string) {
    exists c :: c in cs && c.name == name
  }

  predicate TagNamed(ts: seq<Tag>, name: string) {
    exists t :: t in ts && t.name == name
  }

  /** The name `add_tag` stores: the normalised `name`, or the normalised
      `description` when `name` is falsy. */
  function StoredTagName(description: string, name: Option<string>): (r: string)
    ensures IsAnchor(r)
  {
    if SuppliedText(name) then MarkdownText.SafeText(name.value) else MarkdownText.SafeText(description)
  }

  /** The stored tag name is already normalised: normalising it again, as a
      later `add_tag` with it as `name` would, gives the same name. */
  lemma {:induction false} StoredTagNameIsNormalised(description: string, name: Option<string>)
    ensures MarkdownText.SafeText(StoredTagName(description, name)) == StoredTagName(description, name)
  {
    MarkdownText.SafeTextIdempotent(if SuppliedText(name) then name.value else description);
  }

  /** `UPDATE paragraphs SET title = ?, content = ? WHERE id = ?`, setting only
      the supplied fields: every row with that id, live or soft-deleted, gets
      them; nothing else changes. */
  function PatchRows(rows: seq<ParagraphRow>, id: int, title: Option<string>, content: Option<string>)
    : (r: seq<ParagraphRow>)
    ensures |r| == |rows|
    ensures forall i :: 0 <= i < |rows| ==>
      r[i].id == rows[i].id && r[i].collectionId == rows[i].collectionId && r[i].deletedAt == rows[i].deletedAt
      && r[i].title == (if rows[i].id == id && SuppliedText(title) then title.value else rows[i].title)
      && r[i].content == (if rows[i].id == id && SuppliedText(content) then content.value else rows[i].content)
  {
    seq(|rows|, i requires 0 <= i < |rows| =>
      if rows[i].id != id then rows[i]
      else rows[i].(title := if SuppliedText(title) then title.value else rows[i].title,
                    content := if SuppliedText(content) then content.value else rows[i].content))
  }

  /** `UPDATE paragraphs SET deleted_at = CURRENT_TIMESTAMP WHERE id = ?`: only
      the marker of the rows with that id changes, already deleted ones
      included. */
  function MarkDeleted(rows: seq<ParagraphRow>, id: int, now: nat): (r: seq<ParagraphRow>)
    ensures |r| == |rows|
    ensures forall i :: 0 <= i < |rows| ==>
      r[i].(deletedAt := rows[i].deletedAt) == rows[i]
      && r[i].deletedAt == (if rows[i].id == id then Some(now) else rows[i].deletedAt)
  {
    seq(|rows|, i requires 0 <= i < |rows| =>
      if rows[i].id == id then rows[i].(deletedAt := Some(now)) else rows[i])
  }

  /** The `WHERE` clause of `get_paragraphs`: live, and equal to each filter
      that is supplied. */
  predicate Matches(r: ParagraphRow, paragraphId: Option<int>, collectionId: Option<int>) {
    r.deletedAt.None?
    && (SuppliedId(paragraphId) ==> r.id == paragraphId.value)
    && (SuppliedId(collectionId) ==> r.collectionId == collectionId.value)
  }

  /** The rows the query returns, in storage order. */
  function Select(rows: seq<ParagraphRow>, paragraphId: Option<int>, collectionId: Option<int>)
    : (r: seq<ParagraphRow>)
    ensures forall x :: x in r <==> x in rows && Matches(x, paragraphId, collectionId)
  {
    if rows == [] then []
    else (if Matches(rows[0], paragraphId, collectionId) then [rows[0]] else [])
         + Select(rows[1..], paragraphId, collectionId)
  }

  /** The query keeps storage order: selecting from two runs of rows is
      selecting from each. */
  lemma {:induction false} SelectConcat(a: seq<ParagraphRow>, b: seq<ParagraphRow>,
                                        paragraphId: Option<int>, collectionId: Option<int>)
    ensures Select(a + b, paragraphId, collectionId) == Select(a, paragraphId, collectionId) + Select(b, paragraphId, collectionId)
  {
    if a == [] {
      assert a + b == b;
    } else {
      assert (a + b)[1..] == a[1..] + b;
      SelectConcat(a[1..], b, paragraphId, collectionId);
    }
  }

  /** No row matches, so nothing is selected. */
  lemma {:induction false} SelectNothing(rows: seq<ParagraphRow>, paragraphId: Option<int>, collectionId: Option<int>)
    requires forall r :: r in rows ==> !Matches(r, paragraphId, collectionId)
    ensures Select(rows, paragraphId, collectionId) == []
  {
    if rows != [] {
      assert rows[0] in rows;
      forall r | r in rows[1..] ensures !Matches(r, paragraphId, collectionId) {
        assert r in rows;
      }
      SelectNothing(rows[1..], paragraphId, collectionId);
    }
  }

  /** A just-inserted live row with an id above all others is exactly what
      `get_paragraphs(paragraph_id=new_id)` finds. */
  lemma SelectNewRow(rows: seq<ParagraphRow>, row: ParagraphRow)
    requires forall r :: r in rows ==> r.id < row.id
    requires row.id != 0 && row.deletedAt.None?
    ensures Select(rows + [row], Some(row.id), None) == [row]
  {
    SelectConcat(rows, [row], Some(row.id), None);
    SelectNothing(rows, Some(row.id), None);
    assert Select([row], Some(row.id), None) == [row] + Select([], Some(row.id), None);
  }

  /** Once soft-deleted, a paragraph is never selected again, whatever the
      filters. */
  lemma DeletedStaysHidden(rows: seq<ParagraphRow>, id: int, now: nat,
                           paragraphId: Option<int>, collectionId: Option<int>)
    ensures forall r :: r in Select(MarkDeleted(rows, id, now), paragraphId, collectionId) ==> r.id != id
  {
    var marked := MarkDeleted(rows, id, now);
    forall r | r in Select(marked, paragraphId, collectionId) ensures r.id != id {
      var i :| 0 <= i < |marked| && marked[i] == r;
    }
  }

  /** `SELECT * FROM collections WHERE id = ?` followed by `fetchone()`. */
  function CollectionById(cs: seq<Collection>, id: int): (r: Option<Collection>)
    ensures r.Some? ==> r.value in cs && r.value.id == id
    ensures r.None? ==> forall c :: c in cs ==> c.id != id
  {
    if cs == [] then None
    else if cs[0].id == id then Some(cs[0])
    else CollectionById(cs[1..], id)
  }

  /** `SELECT t.* FROM tags t JOIN paragraph_tags pt ON t.id = pt.tag_id WHERE
      pt.paragraph_id = ?`: the tag rows paired with the paragraph; pairs that
      name no tag row contribute nothing. */
  function JoinTags(ts: seq<Tag>, pairs: set<(int, int)>, pid: int): (r: seq<Tag>)
    ensures forall t :: t in r <==> t in ts && (pid, t.id) in pairs
    ensures NoDup(ts) ==> NoDup(r)
  {
    if ts == [] then []
    else
      var rest := JoinTags(ts[1..], pairs, pid);
      assert NoDup(ts) ==> NoDup(ts[1..]) && ts[0] !in ts[1..] by {
        if NoDup(ts) {
          forall i, j | 0 <= i < j < |ts| - 1 ensures ts[1..][i] != ts[1..][j] {
            assert ts[1..][i] == ts[i + 1] && ts[1..][j] == ts[j + 1];
          }
          forall i | 0 <= i < |ts| - 1 ensures ts[1..][i] != ts[0] {
            assert ts[1..][i] == ts[i + 1];
          }
        }
      }
      (if (pid, ts[0].id) in pairs then [ts[0]] else []) + rest
  }

  /** `collections`: ids start at 1, grow in storage order and stay below the
      AUTOINCREMENT counter; names are UNIQUE. */
  ghost predicate CollectionTable(cs: seq<Collection>, next: int) {
    1 <= next
    && (forall i, j :: 0 <= i < j < |cs| ==> cs[i].id < cs[j].id)
    && (forall i :: 0 <= i < |cs| ==> 1 <= cs[i].id < next)
    && (forall i, j :: 0 <= i < j < |cs| ==> cs[i].name != cs[j].name)
  }

  /** `paragraphs`: ids start at 1, grow in storage order and stay below the counter. */
  ghost predicate ParagraphTable(rows: seq<ParagraphRow>, next: int) {
    1 <= next
    && (forall i, j :: 0 <= i < j < |rows| ==> rows[i].id < rows[j].id)
    && (forall i :: 0 <= i < |rows| ==> 1 <= rows[i].id < next)
  }

  /** `tags`: as for collections, and every name is non-empty and normalised. */
  ghost predicate TagTable(ts: seq<Tag>, next: int) {
    1 <= next
    && (forall i, j :: 0 <= i < j < |ts| ==> ts[i].id < ts[j].id)
    && (forall i :: 0 <= i < |ts| ==> 1 <= ts[i].id < next)
    && (forall i, j :: 0 <= i < j < |ts| ==> ts[i].name != ts[j].name)
    && (forall i :: 0 <= i < |ts| ==> ts[i].name != "" && IsAnchor(ts[i].name))
  }

  lemma TagTableNoDup(ts: seq<Tag>, next: int)
    requires TagTable(ts, next)
    ensures NoDup(ts)
  {
    forall i, j | 0 <= i < j < |ts| ensures ts[i] != ts[j] {
      assert ts[i].id < ts[j].id;
    }
  }

  lemma TagTableAppend(ts: seq<Tag>, next: int, t: Tag)
    requires TagTable(ts, next) && !TagNamed(ts, t.name)
    requires t.id == next && t.name != "" && IsAnchor(t.name)
    ensures TagTable(ts + [t], next + 1)
  {
    var ts' := ts + [t];
    forall i, j | 0 <= i < j < |ts'| ensures ts'[i].name != ts'[j].name {
      if j == |ts| {
        assert ts'[i] in ts;
      }
    }
  }

  lemma CollectionTableAppend(cs: seq<Collection>, next: int, c: Collection)
    requires CollectionTable(cs, next) && !CollectionNamed(cs, c.name) && c.id == next
    ensures CollectionTable(cs + [c], next + 1)
  {
    var cs' := cs + [c];
    forall i, j | 0 <= i < j < |cs'| ensures cs'[i].name != cs'[j].name {
      if j == |cs| {
        assert cs'[i] in cs;
      }
    }
  }

  class Store {
    var collections: seq<Collection>
    var paragraphs: seq<ParagraphRow>
    var tags: seq<Tag>
    /** `paragraph_tags`: its composite primary key makes it a set of pairs. */
    var paragraphTags: set<(int, int)>
    /** One more than the last id each AUTOINCREMENT table handed out. */
    var nextCollectionId: int
    var nextParagraphId: int
    var nextTagId: int

    /** The schema's guarantees and what the operations maintain: ids start
        at 1, grow in storage order and stay below the counter; collection and
        tag names are UNIQUE; every tag name is non-empty and normalised. */
    ghost predicate Valid()
      reads this
    {
      CollectionTable(collections, nextCollectionId)
      && ParagraphTable(paragraphs, nextParagraphId)
      && TagTable(tags, nextTagId)
    }

    /** Every association row belongs to a stored paragraph. The store as
        written does not keep this (see UpdateParagraph); UpdateParagraphChecked
        does. */
    ghost predicate PairsOwned()
      reads this`paragraphs, this`paragraphTags
    {
      forall pair :: pair in paragraphTags ==> exists r :: r in paragraphs && r.id == pair.0
    }

    /** The store right after `initialize_database`: four empty tables. */
    constructor ()
      ensures Valid() && PairsOwned()
      ensures collections == [] && paragraphs == [] && tags == [] && paragraphTags == {}
      ensures nextCollectionId == 1 && nextParagraphId == 1 && nextTagId == 1
    {
      collections, paragraphs, tags, paragraphTags := [], [], [], {};
      nextCollectionId, nextParagraphId, nextTagId := 1, 1, 1;
    }

    ghost predicate HydratedFrom(p: Paragraph, row: ParagraphRow)
      reads this
    {
      p.id == row.id && p.title == row.title && p.content == row.content
      && p.collection == CollectionById(collections, row.collectionId)
      && NoDup(p.tags)
      && (forall t :: t in p.tags <==> t in tags && (row.id, t.id) in paragraphTags)
    }

    /** `ps` are the records `get_paragraphs` builds from `rows`, one each, in order. */
    ghost predicate Hydrates(ps: seq<Paragraph>, rows: seq<ParagraphRow>)
      reads this
    {
      |ps| == |rows| && forall k :: 0 <= k < |ps| ==> HydratedFrom(ps[k], rows[k])
    }

    /** `add_collection`: appends one row, or raises when the name is taken
        (soft-deleted collections still hold their names). */
    method AddCollection(name: string) returns (res: Outcome<DbError>)
      requires Valid()
      modifies this`collections, this`nextCollectionId
      ensures Valid()
      ensures res.Fail? <==> CollectionNamed(old(collections), name)
      ensures res.Fail? ==>
        res.error == DuplicateCollection && collections == old(collections) && nextCollectionId == old(nextCollectionId)
      ensures res.Pass? ==>
        collections == old(collections) + [Collection(old(nextCollectionId), name, None)]
        && nextCollectionId == old(nextCollectionId) + 1
    {
      if CollectionNamed(collections, name) {
        res := Fail(DuplicateCollection);
        return;
      }
      CollectionTableAppend(collections, nextCollectionId, Collection(nextCollectionId, name, None));
      collections := collections + [Collection(nextCollectionId, name, None)];
      nextCollectionId := nextCollectionId + 1;
      res := Pass;
    }

    /** `get_collections`: every row, soft-deleted ones included, in storage order. */
    method GetCollections() returns (r: seq<Collection>)
      ensures r == collections
    {
      r := collections;
    }

    /** `add_tag`: raises when the name normalises to "", does nothing when a
        tag of that name exists (INSERT OR IGNORE), and otherwise appends one
        row holding the normalised name and the description as given. An
        absorbed duplicate may still use up an id, so on that path only the
        counter's not going back is promised. */
    method AddTag(description: string, name: Option<string>) returns (res: Outcome<DbError>)
      requires Valid()
      modifies this`tags, this`nextTagId
      ensures Valid()
      ensures res.Fail? <==> StoredTagName(description, name) == ""
      ensures res.Fail? ==> res.error == EmptyTagName
      ensures res.Fail? ==> tags == old(tags) && nextTagId == old(nextTagId)
      ensures res.Pass? && TagNamed(old(tags), StoredTagName(description, name)) ==>
        tags == old(tags) && nextTagId >= old(nextTagId)
      ensures res.Pass? && !TagNamed(old(tags), StoredTagName(description, name)) ==>
        tags == old(tags) + [Tag(old(nextTagId), StoredTagName(description, name), description, None)]
        && nextTagId == old(nextTagId) + 1
    {
      var stored := StoredTagName(description, name);
      if stored == "" {
        res := Fail(EmptyTagName);
        return;
      }
      res := Pass;
      if !TagNamed(tags, stored) {
        TagTableAppend(tags, nextTagId, Tag(nextTagId, stored, description, None));
        tags := tags + [Tag(nextTagId, stored, description, None)];
        nextTagId := nextTagId + 1;
      }
    }

    /** `get_tags`: every row, soft-deleted ones included, in storage order. */
    method GetTags() returns (r: seq<Tag>)
      ensures r == tags
    {
      r := tags;
    }

    /** `for tag_id in set(tag_ids): INSERT INTO paragraph_tags ...`: inserts
        one pair per distinct id, in an unspecified order, and stops with
        `false` at the first pair that is already there. */
    method InsertPairs(pid: int, tagIds: seq<int>) returns (ok: bool)
      modifies this`paragraphTags
      ensures ok <==> forall t :: t in tagIds ==> (pid, t) !in old(paragraphTags)
      ensures ok ==> paragraphTags == old(paragraphTags) + PairsFor(pid, tagIds)
      ensures old(paragraphTags) <= paragraphTags <= old(paragraphTags) + PairsFor(pid, tagIds)
    {
      var remaining := set t | t in tagIds;
      ok := true;
      while remaining != {}
        invariant remaining <= set t | t in tagIds
        invariant old(paragraphTags) <= paragraphTags
        invariant forall p :: p in paragraphTags ==>
          p in old(paragraphTags) || (p.0 == pid && p.1 in tagIds && p.1 !in remaining)
        invariant forall t :: t in tagIds && t !in remaining ==>
          (pid, t) in paragraphTags && (pid, t) !in old(paragraphTags)
        decreases remaining
      {
        var t := Pick(remaining);
        if (pid, t) in paragraphTags {
          ok := false;
          return;
        }
        paragraphTags := paragraphTags + {(pid, t)};
        remaining := remaining - {t};
      }
    }

    /** `add_paragraph`: appends a live row under the next id, larger than
        every id before it, then inserts the pairs for the distinct tag ids.
        The collection is not checked (foreign keys are off). A pair that is
        already stored raises; the row and the pairs inserted before it stay,
        since nothing rolls the transaction back. When every stored pair
        belongs to a stored paragraph, that cannot happen. */
    method AddParagraph(collectionId: int, title: string, content: string, tagIds: seq<int>)
      returns (res: Result<int, DbError>)
      requires Valid()
      modifies this`paragraphs, this`nextParagraphId, this`paragraphTags
      ensures Valid()
      ensures forall r :: r in old(paragraphs) ==> r.id < old(nextParagraphId)
      ensures paragraphs == old(paragraphs) + [ParagraphRow(old(nextParagraphId), collectionId, title, content, None)]
      ensures nextParagraphId == old(nextParagraphId) + 1
      ensures res.Success? <==> forall t :: t in tagIds ==> (old(nextParagraphId), t) !in old(paragraphTags)
      ensures res.Success? ==>
        res.value == old(nextParagraphId)
        && paragraphTags == old(paragraphTags) + PairsFor(old(nextParagraphId), tagIds)
      ensures res.Failure? ==>
        res.error == DuplicatePair
        && old(paragraphTags) <= paragraphTags <= old(paragraphTags) + PairsFor(old(nextParagraphId), tagIds)
      ensures old(PairsOwned()) ==> res.Success? && PairsOwned()
    {
      var id := nextParagraphId;
      ghost var before := paragraphs;
      paragraphs := paragraphs + [ParagraphRow(id, collectionId, title, content, None)];
      nextParagraphId := nextParagraphId + 1;
      forall r | r in before ensures r.id < id {
        var i :| 0 <= i < |before| && before[i] == r;
      }
      var ok := InsertPairs(id, tagIds);
      if ok {
        res := Success(id);
      } else {
        res := Failure(DuplicatePair);
      }
    }

    /** `update_paragraph`: raises before any change when neither title nor
        content is supplied; otherwise writes the supplied fields to the row
        with that id and replaces its association pairs by those of the
        distinct `tag_ids` (a full replace, not a merge). There is no check that
        such a row exists: for an id with no row the pairs are still written. */
    method UpdateParagraph(id: int, title: Option<string>, content: Option<string>, tagIds: seq<int>)
      returns (res: Outcome<DbError>)
      requires Valid()
      modifies this`paragraphs, this`paragraphTags
      ensures Valid()
      ensures res.Fail? <==> !SuppliedText(title) && !SuppliedText(content)
      ensures res.Fail? ==>
        res.error == NothingToUpdate && paragraphs == old(paragraphs) && paragraphTags == old(paragraphTags)
      ensures res.Pass? ==> paragraphs == PatchRows(old(paragraphs), id, title, content)
      ensures res.Pass? ==> paragraphTags == (set p | p in old(paragraphTags) && p.0 != id) + PairsFor(id, tagIds)
      ensures res.Pass? ==> forall t :: (id, t) in paragraphTags <==> t in tagIds
      ensures forall p: (int, int) :: p.0 != id ==> (p in paragraphTags <==> p in old(paragraphTags))
    {
      if !SuppliedText(title) && !SuppliedText(content) {
        res := Fail(NothingToUpdate);
        return;
      }
      paragraphs := PatchRows(paragraphs, id, title, content);
      paragraphTags := set p | p in paragraphTags && p.0 != id;
      var ok := InsertPairs(id, tagIds);
      res := Pass;
    }

    /** `delete_paragraph`: stamps `deleted_at` on the rows with that id and
        changes nothing else; an unknown or already deleted id is not
        reported (a deleted row's stamp is overwritten). */
    method DeleteParagraph(id: int, now: nat)
      requires Valid()
      modifies this`paragraphs
      ensures Valid()
      ensures paragraphs == MarkDeleted(old(paragraphs), id, now)
    {
      paragraphs := MarkDeleted(paragraphs, id, now);
    }

    /** `get_paragraphs`: for each live row that matches the supplied filters,
        in storage order, the record with its collection row and its tags. */
    method GetParagraphs(paragraphId: Option<int>, collectionId: Option<int>) returns (ps: seq<Paragraph>)
      requires Valid()
      ensures Hydrates(ps, Select(paragraphs, paragraphId, collectionId))
    {
      var rows := Select(paragraphs, paragraphId, collectionId);
      TagTableNoDup(tags, nextTagId);
      ps := [];
      for i := 0 to |rows|
        invariant |ps| == i
        invariant forall k :: 0 <= k < i ==> HydratedFrom(ps[k], rows[k])
      {
        var row := rows[i];
        var collection := CollectionById(collections, row.collectionId);
        var joined := JoinTags(tags, paragraphTags, row.id);
        var p := Paragraph(row.id, row.title, row.content, collection, joined);
        assert HydratedFrom(p, row);
        ps := ps + [p];
      }
    }

    /** `generate_markdown(collection_id)`: the paragraphs of that collection
        id (all live paragraphs when it is 0) rendered with the index headings
        in the set's iteration order. */
    method GenerateMarkdown(collectionId: int)
      returns (doc: Renderer.Document, ps: seq<Paragraph>, order: seq<Tag>)
      requires Valid()
      ensures Hydrates(ps, Select(paragraphs, None, Some(collectionId)))
      ensures Enumerates(order, Renderer.TagUnion(ps))
      ensures doc == Renderer.Render(ps, order)
    {
      ps := GetParagraphs(None, Some(collectionId));
      order := Renderer.IterationOrder(Renderer.TagUnion(ps));
      doc := Renderer.Render(ps, order);
    }

    /** `update_paragraph` as evidently intended: it also raises NotFound,
        before any change, when no live row has that id. Unlike the code as
        written, it keeps every association row owned by a stored paragraph. */
    method UpdateParagraphChecked(id: int, title: Option<string>, content: Option<string>, tagIds: seq<int>)
      returns (res: Outcome<DbError>)
      requires Valid()
      modifies this`paragraphs, this`paragraphTags
      ensures Valid()
      ensures res.Fail? <==>
        (!SuppliedText(title) && !SuppliedText(content))
        || !(exists r :: r in old(paragraphs) && r.id == id && r.deletedAt.None?)
      ensures res.Fail? && !SuppliedText(title) && !SuppliedText(content) ==> res.error == NothingToUpdate
      ensures res.Fail? && (SuppliedText(title) || SuppliedText(content)) ==> res.error.NotFound?
      ensures res.Fail? ==> paragraphs == old(paragraphs) && paragraphTags == old(paragraphTags)
      ensures res.Pass? ==>
        paragraphs == PatchRows(old(paragraphs), id, title, content)
        && paragraphTags == (set p | p in old(paragraphTags) && p.0 != id) + PairsFor(id, tagIds)
      ensures old(PairsOwned()) ==> PairsOwned()
    {
      if !SuppliedText(title) && !SuppliedText(content) {
        res := Fail(NothingToUpdate);
        return;
      }
      if !(exists r :: r in paragraphs && r.id == id && r.deletedAt.None?) {
        res := Fail(ParagraphNotFound);
        return;
      }
      ghost var owner :| owner in paragraphs && owner.id == id && owner.deletedAt.None?;
      ghost var wasOwned := PairsOwned();
      ghost var before := paragraphs;
      res := UpdateParagraph(id, title, content, tagIds);
      if wasOwned {
        forall pair | pair in paragraphTags ensures exists r :: r in paragraphs && r.id == pair.0 {
          var i :| 0 <= i < |before| && before[i] == owner;
          if pair.0 == id {
            assert paragraphs[i].id == id && paragraphs[i] in paragraphs;
          } else {
            var q :| q in before && q.id == pair.0;
            var j :| 0 <= j < |before| && before[j] == q;
            assert paragraphs[j].id == pair.0 && paragraphs[j] in paragraphs;
          }
        }
      }
    }
  }
}
