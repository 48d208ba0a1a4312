/** `generate_markdown` (func.py:330-356) without the template's whitespace:
    the rendered document as a structure of headings, links and excerpts. */
module Renderer {
  import opened Wrappers
  import opened Seqs
  import opened TextOps
  import opened Records
  import MarkdownText

  /** One heading of the topics index and the links listed under it. */
  datatype IndexEntry = IndexEntry(heading: string, links: seq<string>)

  /** One excerpt section: the title, the content verbatim and the tag links. */
  datatype Excerpt = Excerpt(title: string, content: string, tagLinks: seq<string>)

  /** "# 1. Topics Index" followed by "# 2. Excerpts". */
  datatype Document = Document(index: seq<IndexEntry>, excerpts: seq<Excerpt>)

  /** `set(t for p in paragraphs for t in p.tags)`: each tag that some
      paragraph carries, once. */
  function TagUnion(ps: seq<Paragraph>): (r: set<Tag>)
    ensures forall p, t :: p in ps && t in p.tags ==> t in r
    ensures forall t :: t in r ==> exists p :: p in ps && t in p.tags
  {
    set p, t | p in ps && t in p.tags :: t
  }

  /** `paragraph for paragraph in paragraphs if tag in paragraph.tags`: the
      paragraphs that carry `tag`, and only those. */
  function Carrying(ps: seq<Paragraph>, tag: Tag): (r: seq<Paragraph>)
    ensures forall p :: p in r <==> p in ps && tag in p.tags
    ensures |r| <= |ps|
  {
    if ps == [] then []
    else (if tag in ps[0].tags then [ps[0]] else []) + Carrying(ps[1..], tag)
  }

  /** The `md_link` of each paragraph, in order: link k reads back as the
      title of paragraph k and that title's anchor. */
  function ParagraphLinks(ps: seq<Paragraph>): (r: seq<string>)
    ensures |r| == |ps|
    ensures forall k :: 0 <= k < |ps| ==>
      ParseLink(r[k]) == Some(Link(ps[k].title, MarkdownText.SafeText(ps[k].title)))
  {
    seq(|ps|, i requires 0 <= i < |ps| => ps[i].MdLink())
  }

  /** The `md_link` of each tag, in order (the comma-joined tag line): link
      k reads back as the description of tag k and that description's anchor. */
  function TagLinks(ts: seq<Tag>): (r: seq<string>)
    ensures |r| == |ts|
    ensures forall k :: 0 <= k < |ts| ==>
      ParseLink(r[k]) == Some(Link(ts[k].description, MarkdownText.SafeText(ts[k].description)))
  {
    seq(|ts|, i requires 0 <= i < |ts| => ts[i].MdLink())
  }

  function ExcerptOf(p: Paragraph): Excerpt {
    Excerpt(p.title, p.content, TagLinks(p.tags))
  }

  /** The document for `ps`, with the index headings in `order`, the order in
      which the template iterates the set of tags. One index entry per listed
      tag and one excerpt per paragraph, in input order, each with the
      paragraph's own title and content. */
  function Render(ps: seq<Paragraph>, order: seq<Tag>): (doc: Document)
    ensures |doc.index| == |order| && |doc.excerpts| == |ps|
    ensures forall k :: 0 <= k < |ps| ==>
      doc.excerpts[k].title == ps[k].title && doc.excerpts[k].content == ps[k].content
      && |doc.excerpts[k].tagLinks| == |ps[k].tags|
  {
    Document(seq(|order|, i requires 0 <= i < |order| => IndexEntry(order[i].description, ParagraphLinks(Carrying(ps, order[i])))),
             seq(|ps|, k requires 0 <= k < |ps| => ExcerptOf(ps[k])))
  }

  /** Filtering commutes with concatenation, so the links under a heading
      keep the paragraphs' input order. */
  lemma {:induction false} CarryingConcat(a: seq<Paragraph>, b: seq<Paragraph>, tag: Tag)
    ensures Carrying(a + b, tag) == Carrying(a, tag) + Carrying(b, tag)
  {
    if a != [] {
      assert (a + b)[1..] == a[1..] + b;
      CarryingConcat(a[1..], b, tag);
    } else {
      assert a + b == b;
    }
  }

  /** When the headings enumerate the distinct tags of the paragraphs, there
      is one heading per distinct tag, each is the description of one of those
      tags, and none of them lists an empty section. */
  lemma IndexHasOneNonEmptySectionPerTag(ps: seq<Paragraph>, order: seq<Tag>)
    requires Enumerates(order, TagUnion(ps))
    ensures |Render(ps, order).index| == |TagUnion(ps)|
    ensures forall i :: 0 <= i < |order| ==>
      order[i] in TagUnion(ps) && Render(ps, order).index[i].heading == order[i].description
      && Render(ps, order).index[i].links != []
  {
    EnumerationCard(order, TagUnion(ps));
    forall i | 0 <= i < |order|
      ensures Render(ps, order).index[i].links != []
    {
      var t := order[i];
      assert t in TagUnion(ps);
      var p :| p in ps && t in p.tags;
      assert p in Carrying(ps, t);
    }
  }

  /** A paragraph that carries a tag is linked under that tag's heading. */
  lemma {:induction false} LinkedUnderEachOfItsTags(ps: seq<Paragraph>, order: seq<Tag>, i: int, k: int)
    requires 0 <= i < |order| && 0 <= k < |ps|
    requires order[i] in ps[k].tags
    ensures ps[k].MdLink() in Render(ps, order).index[i].links
  {
    var c := Carrying(ps, order[i]);
    assert ps[k] in c;
    var j :| 0 <= j < |c| && c[j] == ps[k];
    assert ParagraphLinks(c)[j] == ps[k].MdLink();
  }

  /** The section under heading `i` lists the carrying paragraphs' links in
      input order (`Carrying`, with `CarryingConcat`), and every link it lists
      is that of a paragraph carrying the tag. */
  lemma {:induction false} LinkedOnlyUnderItsTags(ps: seq<Paragraph>, order: seq<Tag>, i: int)
    requires 0 <= i < |order|
    ensures Render(ps, order).index[i].links == ParagraphLinks(Carrying(ps, order[i]))
    ensures forall l :: l in Render(ps, order).index[i].links ==>
      exists k :: 0 <= k < |ps| && order[i] in ps[k].tags && l == ps[k].MdLink()
  {
    var c := Carrying(ps, order[i]);
    forall l | l in ParagraphLinks(c)
      ensures exists k :: 0 <= k < |ps| && order[i] in ps[k].tags && l == ps[k].MdLink()
    {
      var j :| 0 <= j < |c| && ParagraphLinks(c)[j] == l;
      assert c[j] in c;
      var k :| 0 <= k < |ps| && ps[k] == c[j];
    }
  }

  /** The tag line of each excerpt links each of the paragraph's tags. */
  lemma ExcerptLinksEachTag(ps: seq<Paragraph>, order: seq<Tag>, k: int, j: int)
    requires 0 <= k < |ps| && 0 <= j < |ps[k].tags|
    ensures Render(ps, order).excerpts[k].tagLinks[j] == ps[k].tags[j].MdLink()
  {
  }

  /** The order in which `{% for tag in tags %}` visits a Python set: each
      element once, in an order the model leaves open. */
  method IterationOrder(s: set<Tag>) returns (order: seq<Tag>)
    ensures Enumerates(order, s)
  {
    order := [];
    var rest := s;
    while rest != {}
      invariant rest <= s
      invariant NoDup(order)
      invariant forall t :: t in order <==> t in s && t !in rest
      decreases |rest|
    {
      var t := Pick(rest);
      order := order + [t];
      rest := rest - {t};
    }
  }
}
