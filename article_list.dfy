/**
 * The dashboard's article list: the infinite-scroll pager, and the
 * optimistic cache patches that mark an article as scheduled for deletion
 * or restore it, each rolled back to a snapshot if the server call fails.
 */
module ArticleList {

  import opened Common

  /** The fields of a listed article that the list reads or patches. */
  datatype ArticleNode = ArticleNode(
    id: ArticleId,
    title: string,
    isPublished: bool,
    publishedAt: Option<Time>,
    deleteScheduledAt: Option<Time>)

  datatype Meta = Meta(currentPage: Option<int>, totalPages: Option<int>)

  /** One fetched page; `meta` may be missing. */
  datatype FeedPage = FeedPage(nodes: seq<ArticleNode>, meta: Option<Meta>)

  /** The cached infinite query: its pages and the page numbers they were fetched with. */
  datatype FeedData = FeedData(pages: seq<FeedPage>, pageParams: seq<int>)

  const INITIAL_PAGE_PARAM := 1
  const PAGE_LIMIT := 10

  /** `getNextPageParam(lastPage)`: the next page number, or `None` (`null`) after the last one. */
  function NextPageParam(lastPage: Option<FeedPage>): (r: Option<int>)
    ensures var meta := if lastPage.Some? then lastPage.value.meta else None;
      var page := if meta.Some? then meta.value.currentPage.GetOr(1) else 1;
      var total := if meta.Some? then meta.value.totalPages.GetOr(1) else 1;
      (r.Some? <==> page + 1 <= total) && (r.Some? ==> r.value == page + 1)
  {
    var meta := if lastPage.Some? then lastPage.value.meta else None;
    var page := if meta.Some? then meta.value.currentPage.GetOr(1) else 1;
    var totalPages := if meta.Some? then meta.value.totalPages.GetOr(1) else 1;
    if page + 1 <= totalPages then Some(page + 1) else None
  }

  /** The next page exists exactly while the current page is before the last. */
  lemma NextPageCases(page: int, total: int)
    ensures NextPageParam(Some(FeedPage([], Some(Meta(Some(page), Some(total)))))) ==
            (if page < total then Some(page + 1) else None)
    ensures NextPageParam(None) == None
    ensures NextPageParam(Some(FeedPage([], None))) == None
    ensures NextPageParam(Some(FeedPage([], Some(Meta(None, Some(total)))))) ==
            (if total >= 2 then Some(2) else None)
  {
  }

  /** One node with its `delete_scheduled_at` set when its id matches. */
  function PatchNode(a: ArticleNode, id: ArticleId, scheduledAt: Option<Time>): ArticleNode {
    if a.id == id then a.(deleteScheduledAt := scheduledAt) else a
  }

  function PatchPage(p: FeedPage, id: ArticleId, scheduledAt: Option<Time>): (r: FeedPage)
    ensures |r.nodes| == |p.nodes| && r.meta == p.meta
    ensures forall j :: 0 <= j < |p.nodes| ==> r.nodes[j] == PatchNode(p.nodes[j], id, scheduledAt)
  {
    p.(nodes := seq(|p.nodes|, j requires 0 <= j < |p.nodes| => PatchNode(p.nodes[j], id, scheduledAt)))
  }

  /** The updater both mutations pass to `setQueryData`: an absent cache stays absent. */
  function PatchCache(old_: Option<FeedData>, id: ArticleId, scheduledAt: Option<Time>): (r: Option<FeedData>)
    ensures r.None? <==> old_.None?
    ensures r.Some? ==> |r.value.pages| == |old_.value.pages| && r.value.pageParams == old_.value.pageParams
    ensures r.Some? ==> forall i :: 0 <= i < |old_.value.pages| ==>
      r.value.pages[i] == PatchPage(old_.value.pages[i], id, scheduledAt)
  {
    if old_.None? then old_
    else
      var pages := old_.value.pages;
      Some(old_.value.(pages := seq(|pages|, i requires 0 <= i < |pages| => PatchPage(pages[i], id, scheduledAt))))
  }

  const DAY_MS := 24 * 60 * 60 * 1000

  /** The delete patch: matching nodes are scheduled seven days from `now`. */
  function DeletePatch(old_: Option<FeedData>, id: ArticleId, now: Time): Option<FeedData> {
    PatchCache(old_, id, Some(now + 7 * DAY_MS))
  }

  /** The restore patch: matching nodes lose their schedule. */
  function RestorePatch(old_: Option<FeedData>, id: ArticleId): Option<FeedData> {
    PatchCache(old_, id, None)
  }

  /** `onError`: a truthy snapshot replaces the cache; without one the cache stays. */
  function Rollback(previousData: Option<FeedData>, current: Option<FeedData>): (r: Option<FeedData>)
    ensures previousData.Some? ==> r == previousData
    ensures previousData.None? ==> r == current
  {
    if previousData.Some? then previousData else current
  }

  /** The entry the menu offers for a node. */
  datatype MenuAction = Restore | Delete

  function OfferedAction(a: ArticleNode): (r: MenuAction)
    ensures r == Restore <==> a.deleteScheduledAt.Some?
  {
    if a.deleteScheduledAt.Some? then Restore else Delete
  }

  /**
   * A patch changes only `delete_scheduled_at`, and only on the nodes whose
   * id matches: pages, their order, their nodes' order, every other field
   * and every other node stay.
   */
  lemma PatchOnlyTouchesMatches(c: FeedData, id: ArticleId, scheduledAt: Option<Time>, i: int, j: int)
    requires 0 <= i < |c.pages| && 0 <= j < |c.pages[i].nodes|
    ensures var r := PatchCache(Some(c), id, scheduledAt).value;
      var a, b := c.pages[i].nodes[j], r.pages[i].nodes[j];
      |r.pages| == |c.pages| && |r.pages[i].nodes| == |c.pages[i].nodes| && r.pages[i].meta == c.pages[i].meta &&
      b.id == a.id && b.title == a.title && b.isPublished == a.isPublished && b.publishedAt == a.publishedAt &&
      (a.id == id ==> b.deleteScheduledAt == scheduledAt) &&
      (a.id != id ==> b == a)
  {
  }

  /** After the delete patch every matching node offers Restore; after the restore patch, Delete. */
  lemma PatchFlipsOfferedAction(c: FeedData, id: ArticleId, now: Time, i: int, j: int)
    requires 0 <= i < |c.pages| && 0 <= j < |c.pages[i].nodes| && c.pages[i].nodes[j].id == id
    ensures OfferedAction(DeletePatch(Some(c), id, now).value.pages[i].nodes[j]) == Restore
    ensures OfferedAction(RestorePatch(Some(c), id).value.pages[i].nodes[j]) == Delete
  {
    PatchOnlyTouchesMatches(c, id, Some(now + 7 * DAY_MS), i, j);
    PatchOnlyTouchesMatches(c, id, None, i, j);
  }

  /** Restoring an article whose delete patch was applied to an unscheduled list gives the list back. */
  lemma RestoreUndoesDelete(c: FeedData, id: ArticleId, now: Time)
    requires forall i, j :: 0 <= i < |c.pages| && 0 <= j < |c.pages[i].nodes| && c.pages[i].nodes[j].id == id ==>
      c.pages[i].nodes[j].deleteScheduledAt.None?
    ensures RestorePatch(DeletePatch(Some(c), id, now), id) == Some(c)
  {
    var r := RestorePatch(DeletePatch(Some(c), id, now), id).value;
    assert |r.pages| == |c.pages|;
    forall i | 0 <= i < |c.pages| ensures r.pages[i] == c.pages[i] {
      assert |r.pages[i].nodes| == |c.pages[i].nodes|;
      forall j | 0 <= j < |c.pages[i].nodes| ensures r.pages[i].nodes[j] == c.pages[i].nodes[j] {
      }
      assert r.pages[i].nodes == c.pages[i].nodes;
    }
    assert r.pages == c.pages;
  }

  /** A failed mutation puts back the snapshot taken before the patch, whether or not a cache existed. */
  lemma RollbackRestoresSnapshot(snapshot: Option<FeedData>, id: ArticleId, scheduledAt: Option<Time>)
    ensures Rollback(snapshot, PatchCache(snapshot, id, scheduledAt)) == snapshot
  {
  }
}
