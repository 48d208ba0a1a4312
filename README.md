# sp-md-wiki-generator: the store, the anchor text and the renderer in Dafny

The wiki generator keeps paragraphs of text in a small SQLite database. Each
paragraph belongs to a collection and carries tags. The generator renders a
collection as one Markdown document. The document opens with a topics index:
one heading per tag, listing links to the paragraphs that carry it. Then come
the excerpts: one section per paragraph, with its title, its content and links
to its tags. Links are in-page anchors, `[text](#anchor)`, where the anchor is
the text normalised by `_get_markdown_safe_text`.

This project models three parts of `func.py`, plus the copy of the text
helpers in `app/models.py`:

- **Anchor normalisation and links** (`text_ops.dfy`, `markdown_text.dfy`,
  `records.dfy`, `app_models.dfy`). These are pure functions over
  `seq<char>`: `strip`, `lower`, `replace(' ', '-')` and the character filter,
  written out one by one. `TextOps.ParseLink` reads a link back and is the
  inverse of building one. It is the model's own tool, not something the code
  does. It splits the link at its last `#`. The anchor never contains `#`, so
  the split is well-defined.
- **The store** (`repository.dfy`). It is a class, `Repository.Store`, with
  these fields:
  - the four tables: `collections`, `paragraphs` and `tags` as sequences of
    rows in storage order, and `paragraph_tags` as a set of pairs;
  - the AUTOINCREMENT counters.

  Each store function is a method:
  - Python's loops stay loops: the per-tag inserts and the hydration of rows.
  - Set-based SQL statements (`UPDATE ... WHERE id = ?`, `DELETE FROM
    paragraph_tags ...`, the `SELECT`s) are functions on the tables.
  - Errors are values: sqlite3's `IntegrityError`, the code's own
    `ValueError`s, and `NotFound`, which only the corrected update raises.
  - Python truthiness of optional arguments (`None`, `0` and `""` count as
    absent) is `SuppliedId`/`SuppliedText` over `Option`.
- **The renderer** (`renderer.dfy`). `generate_markdown` becomes a pure
  function from hydrated paragraphs to a structured `Document`:
  - index entries, each a heading plus its links;
  - excerpts, each a title, the content and the tag links.

  Python `set`/`frozenset` iteration order is not modelled as any particular
  order:
  - the index order is a parameter that must enumerate the tag union;
  - a paragraph's tags are a duplicate-free sequence in some order.

`store_properties.dfy` holds properties that span two calls:
- add, then get;
- update, then get;
- delete, then get.

`scenarios.dfy` holds two concrete runs:
- the worked example: collection "Physics", tag "Thermo Dynamics", paragraph
  "Entropy", and its rendering;
- the orphaned association row that `update_paragraph` can leave behind, and a
  later paragraph that inherits it as a visible tag.

Where the code does less than a caller might expect, the model follows the code:
- `delete_paragraph` never reports a missing or already deleted paragraph. It
  restamps `deleted_at` whatever the row's state.
- `update_paragraph` does not check that the paragraph exists or is live (see
  Findings).
- `get_tags` and `get_collections` return soft-deleted rows too.
- `add_paragraph` checks neither that the collection exists nor that title and
  content are non-empty. Foreign keys are off, so neither the collection id nor
  the tag ids are validated; pairs naming no tag row are dropped only when
  joined on read.
- On an association-row clash, `add_paragraph` raises IntegrityError. The
  paragraph row and the pairs inserted before the clash stay, since nothing
  rolls back, although a caller might expect a failed `add_paragraph` to
  leave no trace.
- Duplicate tag names are absorbed (`INSERT OR IGNORE`). Duplicate collection
  names raise.

## Model

| member | source | states |
|---|---|---|
| TextOps.TrimStart | func.py:13 | dropping leading whitespace never lengthens the string |
| TextOps.TrimEnd | func.py:13 | dropping trailing whitespace never lengthens the string |
| TextOps.Strip | func.py:13 | `str.strip()`: no whitespace is left at either end, the result is no longer than the input, and a string with no whitespace at its ends is unchanged |
| TextOps.TrimStartDropsLeadingSpace | func.py:13 | the leading-whitespace half of `strip()` removes a prefix made only of whitespace and leaves no whitespace at the front |
| TextOps.TrimEndDropsTrailingSpace | func.py:13 | the trailing-whitespace half of `strip()` removes a suffix made only of whitespace and leaves no whitespace at the end |
| TextOps.Lower | func.py:13 | `lower()` keeps the length, turns each upper-case letter into the lower-case letter at the same place in the alphabet, leaves no upper-case letter, keeps every character that is not upper-case, and maps letters and digits to letters and digits and nothing else to them |
| TextOps.ReplaceChar | func.py:13 | `replace(' ', '-')` keeps the length, turns every space into `-`, leaves no space behind, and keeps every other character in place |
| TextOps.KeepLinkChars | func.py:16 | the filtering comprehension never lengthens its input |
| TextOps.KeepLinkCharsKeepsExactly | func.py:16 | a character occurs in the filtered string exactly when it occurs in the input and is alphanumeric, `-` or `_` |
| TextOps.KeepLinkCharsConcat | func.py:16 | filtering a concatenation is concatenating the filtered parts, so the filter keeps the input's order and the number of times each kept character occurs |
| TextOps.KeepLinkCharsFixes | func.py:16 | a string made only of alphanumerics, `-` and `_` passes the filter unchanged |
| TextOps.ParseLink | func.py:24 | a link read back as `[text](#anchor)`, split at the last `#`, is exactly `"[" + text + "](#" + anchor + ")"` with a `#`-free anchor |
| TextOps.ParseLinkOfBuilt | func.py:24 | reading back a built link with a `#`-free anchor returns its text and anchor: the link format is read back without loss |
| MarkdownText.SafeText | func.py:12-18 | every character of the normalised text is a lower-case letter, a digit, `-` or `_`; no space or other whitespace survives |
| MarkdownText.SafeTextFixesAnchors | func.py:12-18 | a string made only of lower-case alphanumerics, `-` and `_` is returned unchanged |
| MarkdownText.SafeTextIdempotent | func.py:12-18 | normalising twice is normalising once |
| MarkdownText.Hyperlink | func.py:21-24 | `get_markdown_hyperlink(t)` reads back as text `t` verbatim and anchor the normalised `t`, so it is `"[" + t + "](#" + anchor + ")"` |
| MarkdownText.ExampleTagAnchor | func.py:12-18 | "Thermo Dynamics" normalises to `thermo-dynamics` |
| MarkdownText.ExampleParagraphAnchor | func.py:12-18 | "Entropy" normalises to `entropy` |
| Records.Tag.MdLink | func.py:53-55 | a tag's link has its description as text and the normalised description as anchor |
| Records.Paragraph.MdLink | func.py:70-72 | a paragraph's link has its title as text and the normalised title as anchor |
| AppModels.SafeText | app/models.py:7-13 | the copy's result holds only lower-case letters, digits, `-` and `_`, so no space survives |
| AppModels.SafeTextAgrees | app/models.py:7-13 | the copy equals `_get_markdown_safe_text` of func.py on every input |
| AppModels.SafeTextFixesAnchors | app/models.py:8-11 | the copy returns a string of anchor characters unchanged |
| AppModels.SafeTextIdempotent | app/models.py:7-13 | the copy is idempotent |
| AppModels.Hyperlink | app/models.py:16-19 | the copy's link reads back as the text verbatim and the copy's normalisation as anchor |
| AppModels.HyperlinkAgrees | app/models.py:16-19 | the copy's link equals func.py's on every input |
| AppModels.Tag.MdLink | app/models.py:52-54 | the copy's tag link is the hyperlink of the description |
| AppModels.Paragraph.MdLink | app/models.py:67-69 | the copy's paragraph link is the hyperlink of the title |
| Repository.PairsFor | func.py:149-153 | the association rows inserted for `set(tag_ids)` are exactly `(pid, t)` for each `t` in `tag_ids`, each once |
| Repository.StoredTagName | func.py:281-284 | the name `add_tag` stores, from `name` when it is truthy and from `description` otherwise, is made only of lower-case letters, digits, `-` and `_` |
| Repository.StoredTagNameIsNormalised | func.py:281-284 | the stored tag name is already normalised: normalising it again gives the same name |
| Repository.PatchRows | func.py:170-190 | the `UPDATE` sets the supplied (truthy) title and content on the rows with that id; every other field and every other row is unchanged |
| Repository.MarkDeleted | func.py:210-214 | the soft delete sets only `deleted_at` of the rows with that id; everything else is unchanged |
| Repository.SuppliedId | func.py:233-239 | an optional id counts as supplied exactly when it is present and not 0, as `if paragraph_id:` tests it |
| Repository.SuppliedText | func.py:174-180 | an optional title or content counts as supplied exactly when it is present and not empty, as `if title:` tests it |
| Repository.Matches | func.py:228-239 | the `WHERE` clause: the row is live and equals each supplied filter |
| Repository.Select | func.py:225-245 | `get_paragraphs` selects exactly the rows with no `deleted_at` that match every truthy filter |
| Repository.SelectConcat | func.py:225-245 | the selection keeps storage order |
| Repository.SelectNewRow | func.py:225-245 | a just-added live row, whose id is above every other, is the only row `get_paragraphs(paragraph_id=new_id)` selects |
| Repository.DeletedStaysHidden | func.py:210-214 | a soft-deleted paragraph is never selected again, whatever the filters |
| Repository.CollectionById | func.py:247-251 | the collection lookup returns a row with that id, or None exactly when there is none |
| Repository.JoinTags | func.py:253-257 | the join returns exactly the tag rows whose id is paired with the paragraph, without repetition; pairs naming no tag row contribute nothing |
| Repository.TagTableAppend | func.py:110-117 | appending a tag under the next id with a fresh, non-empty, normalised name keeps the `tags` table's invariants (ascending ids, UNIQUE name) |
| Repository.CollectionTableAppend | func.py:91-97 | appending a collection under the next id with a fresh name keeps the `collections` table's invariants |
| Repository.Store.constructor | func.py:85-127 | a freshly initialised database has four empty tables and counters at 1 |
| Repository.Store.AddCollection | func.py:310-318 | `add_collection` fails with IntegrityError exactly when the name is taken, changing nothing; otherwise it appends one row under the next id |
| Repository.Store.GetCollections | func.py:321-326 | `get_collections` returns every row, soft-deleted ones included, in storage order |
| Repository.Store.AddTag | func.py:278-295 | `add_tag` stores the normalised `name`, or the normalised `description` when `name` is falsy. It fails with ValueError exactly when that is empty, changing nothing. When the name exists it changes no row and the id counter does not go back. Otherwise it appends exactly one row under the next id |
| Repository.Store.GetTags | func.py:298-303 | `get_tags` returns every row, soft-deleted ones included, in storage order |
| Repository.Store.InsertPairs | func.py:149-153 | the loop over `set(tag_ids)` succeeds exactly when none of the pairs is stored, and then adds exactly those pairs. Otherwise it adds only some of them |
| Repository.Store.AddParagraph | func.py:133-157 | `add_paragraph` appends one live row under an id above every previous one and adds exactly the pairs of the distinct tag ids. It returns the id. It fails with IntegrityError exactly when one of those pairs was already stored, which cannot happen while every pair belongs to a stored paragraph |
| Repository.Store.UpdateParagraph | func.py:160-204 | `update_paragraph` raises ValueError before any change when neither title nor content is truthy. Otherwise it patches the row and replaces that id's pairs with those of the given ids. Other ids' pairs are untouched |
| Repository.Store.DeleteParagraph | func.py:207-216 | `delete_paragraph` stamps `deleted_at` on the rows with that id and changes nothing else |
| Repository.Store.GetParagraphs | func.py:219-272 | one record per selected row, in order, with the row's id, title and content, its collection row, and exactly its joined tags |
| Repository.Store.GenerateMarkdown | func.py:330-356 | the document is the rendering of the hydrated paragraphs of that collection, with the index in an order enumerating their distinct tags |
| Repository.Store.UpdateParagraphChecked | func.py:160-204 | the corrected update fails with ValueError when neither field is truthy and with a not-found error when no live row has that id, in both cases before any change; it keeps every pair owned by a stored paragraph |
| Renderer.TagUnion | func.py:333 | `set(t for p in paragraphs for t in p.tags)` holds a tag exactly when some paragraph carries it |
| Renderer.ParagraphLinks | func.py:340-342 | one link per paragraph, in order; link k reads back as paragraph k's title and that title's anchor |
| Renderer.TagLinks | func.py:348 | one link per tag, in order; link k reads back as tag k's description and that description's anchor |
| Renderer.Carrying | func.py:340 | `paragraphs if tag in paragraph.tags` selects exactly the paragraphs that carry the tag |
| Renderer.CarryingConcat | func.py:340 | that filter keeps the paragraphs' input order |
| Renderer.Render | func.py:336-354 | one index entry per listed tag. One excerpt per paragraph, in input order, with the paragraph's title, verbatim content and one link per tag |
| Renderer.IndexHasOneNonEmptySectionPerTag | func.py:338-343 | the index has one heading per distinct tag of the paragraphs; each heading is the tag's description and lists at least one link |
| Renderer.LinkedUnderEachOfItsTags | func.py:340-342 | a paragraph that carries a tag is linked under that tag's heading |
| Renderer.LinkedOnlyUnderItsTags | func.py:339-342 | the section under a heading lists the links of exactly the paragraphs that carry the tag, in input order; every link listed there is that of a carrying paragraph |
| Renderer.ExcerptLinksEachTag | func.py:348 | the tag line of each excerpt is the link of each of the paragraph's tags |
| Renderer.IterationOrder | func.py:338 | iterating the set of tags visits each tag exactly once |
| StoreProperties.AddThenGet | func.py:133-157 | on a store where every association row belongs to a stored paragraph, after `add_paragraph`, `get_paragraphs(paragraph_id=new_id)` returns exactly one record. Its title, content and collection are the ones given. Its tags are exactly the stored tags whose ids were given; unknown ids are dropped |
| StoreProperties.UpdateThenGet | func.py:192-202 | after an update, a record with that id carries exactly the stored tags whose ids were given: the update replaced the tag set rather than merging it |
| StoreProperties.DeleteThenGet | func.py:207-216 | after `delete_paragraph(id)`, no `get_paragraphs` returns a record with that id |
| Scenarios.ExampleCollection | func.py:310-318 | `add_collection("Physics")` on a fresh database gives the one row (1, "Physics") and leaves the other tables empty |
| Scenarios.ExampleTagged | func.py:278-295 | then `add_tag("Thermo Dynamics")` gives the one tag row (1, `thermo-dynamics`, "Thermo Dynamics") |
| Scenarios.ExampleStore | func.py:133-157 | adding collection "Physics", tag "Thermo Dynamics" and paragraph "Entropy" gives exactly these rows: tag name `thermo-dynamics`, paragraph id 1, pair (1, 1) |
| Scenarios.ExampleHydration | func.py:219-272 | on that store, `get_paragraphs(collection_id=1)` returns exactly the paragraph "Entropy" with collection "Physics" and tag "Thermo Dynamics" |
| Scenarios.RenderOnePairing | func.py:336-354 | a single paragraph carrying a single tag renders to one heading, the tag's description, listing the paragraph's link. The one excerpt lists the tag's link |
| Scenarios.ExampleParagraphLink | func.py:70-72 | the paragraph "Entropy" links as `[Entropy](#entropy)` |
| Scenarios.ExampleTagLink | func.py:53-55 | the tag "Thermo Dynamics" links as `[Thermo Dynamics](#thermo-dynamics)` |
| Scenarios.ExampleDocument | func.py:330-356 | rendering the example collection gives the heading "Thermo Dynamics" listing `[Entropy](#entropy)`. The excerpt "Entropy" has its content and the tag line `[Thermo Dynamics](#thermo-dynamics)` |
| Scenarios.OrphanPairStore | func.py:160-204 | on a fresh store, `update_paragraph(1, "Entropy", tag_ids=[7])` changes no row but stores the pair (1, 7), which no paragraph owns |
| Scenarios.OrphanPairBlocksInsert | func.py:149-153 | on that store, `add_paragraph(..., tag_ids=[7])` fails with IntegrityError |
| Scenarios.OrphanPairAdopted | func.py:133-157 | on that store, `add_paragraph(..., tag_ids=[])` succeeds with id 1, and the association table then pairs the new paragraph 1 with tag id 7, which it never asked for. No tag row has id 7, so the pair is dropped when the paragraph is read back |
| Scenarios.OrphanTagStore | func.py:160-204 | with collection "Physics" and tag "Thermo Dynamics" (id 1) stored, `update_paragraph(1, "Entropy", tag_ids=[1])` before any paragraph exists changes no row but stores the pair (1, 1) |
| Scenarios.OrphanTagAdded | func.py:133-157 | then `add_paragraph(1, "Entropy", ..., tag_ids=[])` succeeds with id 1 and finds the pair (1, 1) already stored |
| Scenarios.OrphanTagInherited | func.py:219-272 | then `get_paragraphs(paragraph_id=1)` returns exactly the example paragraph "Entropy" carrying tag "Thermo Dynamics", which it never asked for |

## Left out

- Unicode case mapping and `isalnum`: `lower()` and `isalnum()` are modelled over ASCII letters and digits. Other characters count as not alphanumeric, so they are dropped from anchors. `isspace()` uses Python's full whitespace set.
- A NULL tag description: `description` is a string. `md_link` on a tag without a description raises in Python and is not modelled.
- Repository.Store.UpdateParagraph: `tag_ids=None` crashes at `set(None)`. The model takes a sequence, so that crash path is outside it.
- Repository.Store.AddTag: when a duplicate name is absorbed, only "the id counter does not go back" is promised, not "the counter is unchanged". SQLite may draw a rowid for the ignored `INSERT OR IGNORE`, and AUTOINCREMENT only promises increasing ids. The model's body leaves the counter unchanged, which is one of the allowed outcomes.
- Timestamps: `created_at` and `updated_at` are not modelled. `deleted_at` holds the clock reading passed to `DeleteParagraph`, in place of `CURRENT_TIMESTAMP`.
- Transactions: commits and rollbacks are not modelled. A failed `add_paragraph` leaves its changes in the store, as the open transaction holds them.
- The 64-bit range of SQLite ids: ids and counters are unbounded integers.
- SQLite plumbing: the connection, cursors, row factories, `initialize_database`'s DDL and the SQL text itself. The schema's guarantees are kept as the store's invariant `Valid`: ids ascend from 1, names are UNIQUE, and `paragraph_tags` is a set of pairs.
- Message text of IntegrityError: it is fixed constants, not SQLite's actual wording.
- Jinja's whitespace and newlines, and the textual `, ` joining of tag links: the document is structured, not a string.
- Set iteration order: the index order and each paragraph's tag order are any duplicate-free order. The model proves nothing about a particular order.
- Render determinism: the source's output is not deterministic across processes. The index iterates a Python `set` of tags, and string hashing is salted per process, so two runs over the same database may list the headings in different orders. The model takes that order as a parameter (`order`), so it states no particular order and no determinism across runs.
- `open_content_text_editor`, `dict_to_struct`, `struct_to_dict` and the `TextEditor` enum: file and process I/O and struct plumbing.
- `cli.py`, `api.py` and `app/api/controller.py`: these are shell and web glue, not part of this model.

## Findings

| source | as written | input that shows it | evidently intended | confidence | as-written member | corrected member |
|---|---|---|---|---|---|---|
| func.py:160-204 | `update_paragraph` runs its `UPDATE`, its `DELETE` and its inserts without checking that a paragraph with that id exists, so for a missing id it stores association rows that no paragraph owns. The next `add_paragraph` is handed that id by AUTOINCREMENT and then either fails with IntegrityError (when it asks for the same tag) or silently inherits the tag | on a fresh database, `update_paragraph(1, "Entropy", tag_ids=[7])`, then `add_paragraph(1, "Entropy", "...", [7])` | raise a not-found error, changing nothing, when no live paragraph has that id, so that every association row belongs to a stored paragraph | not executed | Scenarios.OrphanPairBlocksInsert | Repository.Store.UpdateParagraphChecked |
