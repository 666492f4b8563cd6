/**
 * Tags and the article-tag pivot table: synchronising the tags of one
 * article with a requested list by set difference, and the tag search.
 */
module Tags {

  import opened Common
  import JsStrings
  import SqlLike

  /** A row of the pivot table linking an article to a tag. */
  datatype ArticleTag = ArticleTag(articleId: ArticleId, tagId: TagId)

  datatype Tag = Tag(id: TagId, name: string)

  /** `attached.map((tag) => tag.tag_id)` for the pivot rows of one article, in table order. */
  function AttachedTagIds(rows: seq<ArticleTag>, articleId: ArticleId): (ids: seq<TagId>)
    ensures forall t :: t in ids <==> ArticleTag(articleId, t) in rows
  {
    if rows == [] then []
    else (if rows[0].articleId == articleId then [rows[0].tagId] else []) + AttachedTagIds(rows[1..], articleId)
  }

  /** `attachedTagIds.filter((tag) => !input.tag_ids.includes(tag))`. */
  function TagsToRemove(attached: seq<TagId>, requested: seq<TagId>): (r: seq<TagId>)
    ensures forall t :: t in r <==> t in attached && t !in requested
  {
    if attached == [] then []
    else (if attached[0] in requested then [] else [attached[0]]) + TagsToRemove(attached[1..], requested)
  }

  /** `input.tag_ids.filter((tag) => !attachedTagIds.includes(tag))`, duplicates kept. */
  function TagsToAdd(attached: seq<TagId>, requested: seq<TagId>): (r: seq<TagId>)
    ensures forall t :: t in r <==> t in requested && t !in attached
    ensures forall t :: t !in attached ==> multiset(r)[t] == multiset(requested)[t]
  {
    if requested == [] then []
    else
      var rest := TagsToAdd(attached, requested[1..]);
      assert requested == [requested[0]] + requested[1..];
      (if requested[0] in attached then [] else [requested[0]]) + rest
  }

  /** The rows the insert adds: one per tag to add, in order. */
  function Links(articleId: ArticleId, tagIds: seq<TagId>): (r: seq<ArticleTag>)
    ensures |r| == |tagIds|
    ensures forall k :: 0 <= k < |r| ==> r[k] == ArticleTag(articleId, tagIds[k])
  {
    if tagIds == [] then [] else [ArticleTag(articleId, tagIds[0])] + Links(articleId, tagIds[1..])
  }

  predicate Removed(row: ArticleTag, articleId: ArticleId, toRemove: seq<TagId>) {
    row.articleId == articleId && row.tagId in toRemove
  }

  /** `delete where article_id = a and tag_id in toRemove`. */
  function DeleteLinks(rows: seq<ArticleTag>, articleId: ArticleId, toRemove: seq<TagId>): (r: seq<ArticleTag>)
    ensures |r| <= |rows|
  {
    if rows == [] then []
    else (if Removed(rows[0], articleId, toRemove) then [] else [rows[0]]) + DeleteLinks(rows[1..], articleId, toRemove)
  }

  /** The pivot table after `syncTagsWithArticles`: insert the tags to add, if any, then delete the tags to remove. */
  function SyncedRows(rows: seq<ArticleTag>, articleId: ArticleId, requested: seq<TagId>): seq<ArticleTag> {
    var attached := AttachedTagIds(rows, articleId);
    var toAdd := TagsToAdd(attached, requested);
    var inserted := if |toAdd| > 0 then rows + Links(articleId, toAdd) else rows;
    DeleteLinks(inserted, articleId, TagsToRemove(attached, requested))
  }

  class ArticleTagStore {
    var rows: seq<ArticleTag>

    constructor(rows0: seq<ArticleTag>)
      ensures rows == rows0
    {
      rows := rows0;
    }

    /** `syncTagsWithArticles({ article_id, tag_ids })`. */
    method SyncTagsWithArticles(articleId: ArticleId, tagIds: seq<TagId>)
      modifies this
      ensures rows == SyncedRows(old(rows), articleId, tagIds)
    {
      var attached := AttachedTagIds(rows, articleId);
      var toRemove := TagsToRemove(attached, tagIds);
      var toAdd := TagsToAdd(attached, tagIds);
      if |toAdd| > 0 {
        rows := rows + Links(articleId, toAdd);
      }
      rows := DeleteLinks(rows, articleId, toRemove);
    }
  }

  lemma {:induction false} DeleteLinksAppend(a: seq<ArticleTag>, b: seq<ArticleTag>, articleId: ArticleId, toRemove: seq<TagId>)
    ensures DeleteLinks(a + b, articleId, toRemove) == DeleteLinks(a, articleId, toRemove) + DeleteLinks(b, articleId, toRemove)
  {
    if a == [] {
      assert a + b == b;
    } else {
      assert (a + b)[1..] == a[1..] + b;
      DeleteLinksAppend(a[1..], b, articleId, toRemove);
    }
  }

  lemma {:induction false} DeleteLinksNone(rows: seq<ArticleTag>, articleId: ArticleId, toRemove: seq<TagId>)
    requires forall k :: 0 <= k < |rows| ==> !Removed(rows[k], articleId, toRemove)
    ensures DeleteLinks(rows, articleId, toRemove) == rows
  {
    if rows != [] {
      DeleteLinksNone(rows[1..], articleId, toRemove);
      assert [rows[0]] + rows[1..] == rows;
    }
  }

  lemma {:induction false} DeleteLinksMembers(rows: seq<ArticleTag>, articleId: ArticleId, toRemove: seq<TagId>, row: ArticleTag)
    ensures row in DeleteLinks(rows, articleId, toRemove) <==> row in rows && !Removed(row, articleId, toRemove)
  {
    if rows != [] {
      DeleteLinksMembers(rows[1..], articleId, toRemove, row);
      assert rows == [rows[0]] + rows[1..];
    }
  }

  /**
   * The sync keeps every pivot row except the removed links, in order, and
   * appends one row per tag to add: the insert and the delete never touch
   * each other's rows.
   */
  lemma SyncedRowsShape(rows: seq<ArticleTag>, articleId: ArticleId, requested: seq<TagId>)
    ensures var attached := AttachedTagIds(rows, articleId);
      SyncedRows(rows, articleId, requested)
        == DeleteLinks(rows, articleId, TagsToRemove(attached, requested))
           + Links(articleId, TagsToAdd(attached, requested))
  {
    var attached := AttachedTagIds(rows, articleId);
    var toAdd := TagsToAdd(attached, requested);
    var toRemove := TagsToRemove(attached, requested);
    var links := Links(articleId, toAdd);
    forall k | 0 <= k < |links| ensures !Removed(links[k], articleId, toRemove) {
      assert toAdd[k] in toAdd;
    }
    DeleteLinksNone(links, articleId, toRemove);
    if |toAdd| > 0 {
      DeleteLinksAppend(rows, links, articleId, toRemove);
    } else {
      assert links == [];
      assert DeleteLinks(rows, articleId, toRemove) + links == DeleteLinks(rows, articleId, toRemove);
    }
  }

  /** After a sync, the tags linked to the article are exactly the requested ones. */
  lemma SyncAttachesRequested(rows: seq<ArticleTag>, articleId: ArticleId, requested: seq<TagId>, t: TagId)
    ensures t in AttachedTagIds(SyncedRows(rows, articleId, requested), articleId) <==> t in requested
  {
    var attached := AttachedTagIds(rows, articleId);
    var toAdd := TagsToAdd(attached, requested);
    var toRemove := TagsToRemove(attached, requested);
    var kept := DeleteLinks(rows, articleId, toRemove);
    var links := Links(articleId, toAdd);
    SyncedRowsShape(rows, articleId, requested);
    var row := ArticleTag(articleId, t);
    DeleteLinksMembers(rows, articleId, toRemove, row);
    if t in toAdd {
      var k :| 0 <= k < |toAdd| && toAdd[k] == t;
      assert links[k] == row;
    }
    if row in links {
      var k :| 0 <= k < |links| && links[k] == row;
      assert toAdd[k] == t;
    }
    assert row in kept + links <==> row in kept || row in links;
  }

  /** Pivot rows of every other article are neither added nor removed. */
  lemma SyncLeavesOtherArticles(rows: seq<ArticleTag>, articleId: ArticleId, requested: seq<TagId>, row: ArticleTag)
    requires row.articleId != articleId
    ensures row in SyncedRows(rows, articleId, requested) <==> row in rows
    ensures multiset(SyncedRows(rows, articleId, requested))[row] == multiset(rows)[row]
  {
    var attached := AttachedTagIds(rows, articleId);
    var toRemove := TagsToRemove(attached, requested);
    var links := Links(articleId, TagsToAdd(attached, requested));
    SyncedRowsShape(rows, articleId, requested);
    DeleteLinksCount(rows, articleId, toRemove, row);
    assert row !in links;
    assert multiset(links)[row] == 0;
  }

  lemma {:induction false} DeleteLinksCount(rows: seq<ArticleTag>, articleId: ArticleId, toRemove: seq<TagId>, row: ArticleTag)
    requires !Removed(row, articleId, toRemove)
    ensures multiset(DeleteLinks(rows, articleId, toRemove))[row] == multiset(rows)[row]
  {
    if rows != [] {
      DeleteLinksCount(rows[1..], articleId, toRemove, row);
      assert rows == [rows[0]] + rows[1..];
    }
  }

  /**
   * A tag both attached and requested keeps all of its pivot rows, and a
   * requested tag that was not attached gets one new row per time it is
   * listed.
   */
  lemma SyncLinkCounts(rows: seq<ArticleTag>, articleId: ArticleId, requested: seq<TagId>, t: TagId)
    ensures var attached := AttachedTagIds(rows, articleId);
      var after := multiset(SyncedRows(rows, articleId, requested))[ArticleTag(articleId, t)];
      (t in attached && t in requested ==> after == multiset(rows)[ArticleTag(articleId, t)]) &&
      (t !in attached ==> after == multiset(requested)[t])
  {
    var attached := AttachedTagIds(rows, articleId);
    var toAdd := TagsToAdd(attached, requested);
    var toRemove := TagsToRemove(attached, requested);
    var row := ArticleTag(articleId, t);
    SyncedRowsShape(rows, articleId, requested);
    LinksCount(articleId, toAdd, t);
    if t in attached && t in requested {
      DeleteLinksCount(rows, articleId, toRemove, row);
    }
    if t !in attached {
      assert row !in rows;
      DeleteLinksCount(rows, articleId, toRemove, row);
    }
  }

  lemma {:induction false} LinksCount(articleId: ArticleId, tagIds: seq<TagId>, t: TagId)
    ensures multiset(Links(articleId, tagIds))[ArticleTag(articleId, t)] == multiset(tagIds)[t]
  {
    if tagIds != [] {
      LinksCount(articleId, tagIds[1..], t);
      assert tagIds == [tagIds[0]] + tagIds[1..];
      assert Links(articleId, tagIds) == [ArticleTag(articleId, tagIds[0])] + Links(articleId, tagIds[1..]);
    }
  }

  /** Repeating a sync with the same list changes nothing. */
  lemma SyncIdempotent(rows: seq<ArticleTag>, articleId: ArticleId, requested: seq<TagId>)
    ensures SyncedRows(SyncedRows(rows, articleId, requested), articleId, requested)
         == SyncedRows(rows, articleId, requested)
  {
    var once := SyncedRows(rows, articleId, requested);
    var attached := AttachedTagIds(once, articleId);
    forall t ensures t in attached <==> t in requested {
      SyncAttachesRequested(rows, articleId, requested, t);
    }
    NothingToRemove(attached, requested);
    NothingToAdd(attached, requested);
    DeleteLinksNone(once, articleId, []);
  }

  lemma {:induction false} NothingToRemove(attached: seq<TagId>, requested: seq<TagId>)
    requires forall t :: t in attached ==> t in requested
    ensures TagsToRemove(attached, requested) == []
  {
    if attached != [] {
      NothingToRemove(attached[1..], requested);
    }
  }

  lemma {:induction false} NothingToAdd(attached: seq<TagId>, requested: seq<TagId>)
    requires forall t :: t in requested ==> t in attached
    ensures TagsToAdd(attached, requested) == []
  {
    if requested != [] {
      NothingToAdd(attached, requested[1..]);
    }
  }

  /** `getTags({ search })`: a truthy search keeps the tags whose name is `LIKE '%term%'` for the lower-cased term. */
  function GetTags(tags: seq<Tag>, search: Option<string>): (r: seq<Tag>)
    ensures search.None? || search.value == "" ==> r == tags
    ensures forall t :: t in r ==> t in tags
  {
    if search.None? || search.value == "" then tags
    else
      var pattern := "%" + JsStrings.ToLower(search.value) + "%";
      Filter(tags, (t: Tag) => SqlLike.Like(t.name, pattern))
  }

  /**
   * For a term without `LIKE` wildcards, the search returns exactly the tags
   * whose name contains the lower-cased term.
   */
  lemma GetTagsContains(tags: seq<Tag>, term: string, t: Tag)
    requires term != "" && SqlLike.NoWildcards(term)
    ensures t in GetTags(tags, Some(term)) <==> t in tags && JsStrings.Contains(t.name, JsStrings.ToLower(term))
  {
    var lowered := JsStrings.ToLower(term);
    assert SqlLike.NoWildcards(lowered) by {
      forall i | 0 <= i < |lowered| ensures !SqlLike.IsWildcard(lowered[i]) {
        assert !SqlLike.IsWildcard(term[i]);
      }
    }
    var pattern := "%" + lowered + "%";
    FilterMembers(tags, (x: Tag) => SqlLike.Like(x.name, pattern), t);
    SqlLike.LikeContains(t.name, lowered);
  }
}
